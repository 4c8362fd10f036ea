/**
 * The keyword matcher of src/mri_acronyms/search_by_keyword.py: `find_closest_match`
 * scores a keyword against a list of acronyms and keeps the first best one;
 * `match_acronym` does that for every concept of the lookup table, picks the first
 * candidate with the highest score, and accepts it only above a cutoff.
 */
module Search {
  import opened Wrappers
  import opened Text
  import opened Models
  import opened Categories

  // ---------------------------------------------------------------------------
  // The similarity score

  function MaxNat(x: nat, y: nat): nat {
    if x >= y then x else y
  }

  /** The length of a longest common subsequence of `a` and `b`. */
  function {:induction false} Lcs(a: string, b: string): (n: nat)
    ensures n <= |a| && n <= |b|
    decreases |a| + |b|
  {
    if a == [] || b == [] then 0
    else if a[0] == b[0] then 1 + Lcs(a[1..], b[1..])
    else MaxNat(Lcs(a[1..], b), Lcs(a, b[1..]))
  }

  /**
   * `fuzz.ratio`: the normalised Indel similarity as a percentage,
   * 200 * LCS / (|a| + |b|), and 100 when both strings are empty.
   */
  function Ratio(a: string, b: string): (r: real)
    ensures 0.0 <= r <= 100.0
  {
    if |a| + |b| == 0 then 100.0
    else
      RatioBounded(Lcs(a, b), |a| + |b|);
      (200 * Lcs(a, b)) as real / (|a| + |b|) as real
  }

  lemma RatioBounded(l: nat, n: nat)
    requires 0 < n && 2 * l <= n
    ensures 0.0 <= (200 * l) as real / n as real <= 100.0
  {
    assert (200 * l) as real <= 100.0 * n as real;
  }

  lemma {:induction false} LcsSelf(a: string)
    ensures Lcs(a, a) == |a|
    decreases |a|
  {
    if a != [] {
      LcsSelf(a[1..]);
    }
  }

  lemma {:induction false} LcsSymmetric(a: string, b: string)
    ensures Lcs(a, b) == Lcs(b, a)
    decreases |a| + |b|
  {
    if a != [] && b != [] {
      LcsSymmetric(a[1..], b[1..]);
      LcsSymmetric(a[1..], b);
      LcsSymmetric(a, b[1..]);
    }
  }

  /** Only a string equal to `a` has all of `a` and nothing else in common with it. */
  lemma {:induction false} LcsFull(a: string, b: string)
    requires Lcs(a, b) == |a| == |b|
    ensures a == b
    decreases |a|
  {
    if a != [] {
      if a[0] == b[0] {
        LcsFull(a[1..], b[1..]);
        assert a == [a[0]] + a[1..] && b == [b[0]] + b[1..];
      }
    }
  }

  /** The score is symmetric. */
  lemma RatioSymmetric(a: string, b: string)
    ensures Ratio(a, b) == Ratio(b, a)
  {
    LcsSymmetric(a, b);
  }

  /** The score is 100 exactly when the two strings are equal. */
  lemma RatioPerfect(a: string, b: string)
    ensures Ratio(a, b) == 100.0 <==> a == b
  {
    if a == b {
      LcsSelf(a);
      if |a| > 0 {
        assert (200 * |a|) as real == 100.0 * (|a| + |b|) as real;
      }
    } else if Ratio(a, b) == 100.0 {
      var l := Lcs(a, b);
      assert (200 * l) as real == 100.0 * (|a| + |b|) as real;
      LcsFull(a, b);
    }
  }

  /** One extra character at the end leaves the whole of `a` in common. */
  lemma {:induction false} LcsAppend(a: string, c: char)
    ensures Lcs(a, a + [c]) == |a|
    decreases |a|
  {
    if a != [] {
      LcsAppend(a[1..], c);
      assert (a + [c])[1..] == a[1..] + [c];
    }
  }

  /** A string of length n >= 2 and the same string with one character more score 200n/(2n+1) >= 80. */
  lemma RatioAppend(a: string, c: char)
    requires |a| >= 2
    ensures Ratio(a, a + [c]) >= 80.0
  {
    LcsAppend(a, c);
    var n := |a|;
    assert Ratio(a, a + [c]) == (200 * n) as real / (2 * n + 1) as real;
    assert (200 * n) as real >= 80.0 * (2 * n + 1) as real;
  }

  /** The score `find_closest_match` computes: both operands lowercased. */
  function Score(keyword: string, acronym: string): (r: real)
    ensures 0.0 <= r <= 100.0
  {
    Ratio(Lower(keyword), Lower(acronym))
  }

  /** An acronym equal to the keyword ignoring case scores 100. */
  lemma ScoreOfSameLower(keyword: string, acronym: string)
    requires Lower(keyword) == Lower(acronym)
    ensures Score(keyword, acronym) == 100.0
  {
    RatioPerfect(Lower(keyword), Lower(acronym));
  }

  /** A keyword of one extra character after an acronym of two or more still scores at least 80. */
  lemma ScoreOfOneMore(acronym: string, c: char)
    requires |acronym| >= 2
    ensures Score(acronym + [c], acronym) >= 80.0
  {
    var a := Lower(acronym);
    LowerConcat(acronym, [c]);
    assert Lower([c]) == [LowerChar(c)];
    assert Lower(acronym + [c]) == a + [LowerChar(c)];
    RatioAppend(a, LowerChar(c));
    RatioSymmetric(a, a + [LowerChar(c)]);
  }

  // ---------------------------------------------------------------------------
  // find_closest_match

  /** The errors the matcher raises: `max()` of an empty list. */
  datatype SearchError =
    | NoAcronyms    // `find_closest_match` on a concept with no acronyms
    | NoCandidates  // `match_acronym` with no candidates, e.g. for a keyword of length <= 1

  /** Python's `max` on a non-empty list of numbers. */
  function {:induction false} Maximum(s: seq<real>): (m: real)
    requires s != []
    ensures m in s
    ensures forall i :: 0 <= i < |s| ==> s[i] <= m
  {
    if |s| == 1 then s[0]
    else
      var t := Maximum(s[1..]);
      assert forall i :: 1 <= i < |s| ==> s[i] == s[1..][i - 1];
      if s[0] >= t then s[0] else t
  }

  /** Python's `list.index`: the first position holding `x`. */
  function {:induction false} FirstIndex(s: seq<real>, x: real): (k: nat)
    requires x in s
    ensures k < |s| && s[k] == x
    ensures forall j :: 0 <= j < k ==> s[j] != x
  {
    if s[0] == x then 0
    else
      var k := FirstIndex(s[1..], x);
      assert forall j :: 1 <= j < |s| ==> s[j] == s[1..][j - 1];
      k + 1
  }

  /** `k` is the first position of a highest value in `s`. */
  predicate IsFirstMax(s: seq<real>, k: int) {
    && 0 <= k < |s|
    && (forall j :: 0 <= j < |s| ==> s[j] <= s[k])
    && (forall j :: 0 <= j < k ==> s[j] < s[k])
  }

  /** `s.index(max(s))` is the first position of a highest value. */
  lemma FirstIndexOfMaximum(s: seq<real>)
    requires s != []
    ensures IsFirstMax(s, FirstIndex(s, Maximum(s)))
  {
  }

  /** There is only one first position of a highest value. */
  lemma FirstMaxUnique(s: seq<real>, k1: int, k2: int)
    requires IsFirstMax(s, k1) && IsFirstMax(s, k2)
    ensures k1 == k2
  {
    assert s[k1] == s[k2];
  }

  /** The scores of the keyword against each acronym, in list order. */
  function Scores(keyword: string, acronyms: seq<string>): (r: seq<real>)
    ensures |r| == |acronyms|
  {
    seq(|acronyms|, i requires 0 <= i < |acronyms| => Score(keyword, acronyms[i]))
  }

  /**
   * What `find_closest_match` returns: the first acronym with the highest score,
   * with its score; `max()` of an empty list raises.
   */
  function ClosestMatch(keyword: string, acronyms: seq<string>): (r: Result<(string, real), SearchError>)
    ensures r.Failure? <==> acronyms == []
    ensures r.Failure? ==> r.error == NoAcronyms
    ensures r.Success? ==>
      exists k :: IsFirstMax(Scores(keyword, acronyms), k) && r.value == (acronyms[k], Score(keyword, acronyms[k]))
    ensures r.Success? ==> forall i :: 0 <= i < |acronyms| ==> Score(keyword, acronyms[i]) <= r.value.1
    ensures r.Success? ==> 0.0 <= r.value.1 <= 100.0
  {
    if acronyms == [] then Failure(NoAcronyms)
    else
      var s := Scores(keyword, acronyms);
      var k := FirstIndex(s, Maximum(s));
      FirstIndexOfMaximum(s);
      assert forall i :: 0 <= i < |acronyms| ==> s[i] == Score(keyword, acronyms[i]);
      Success((acronyms[k], s[k]))
  }

  /** `find_closest_match`: one score per acronym, then the first position of the highest. */
  method FindClosestMatch(keyword: string, acronyms: seq<string>) returns (r: Result<(string, real), SearchError>)
    ensures r == ClosestMatch(keyword, acronyms)
  {
    var confidences: seq<real> := [];
    for i := 0 to |acronyms|
      invariant confidences == Scores(keyword, acronyms)[..i]
    {
      var fuzzRatio := Score(keyword, acronyms[i]);
      confidences := confidences + [fuzzRatio];
    }
    assert confidences == Scores(keyword, acronyms);
    if confidences == [] {
      return Failure(NoAcronyms);
    }
    var m := FirstIndex(confidences, Maximum(confidences));
    r := Success((acronyms[m], confidences[m]));
  }

  /** Scores, and so the closest match, depend on the keyword only through its lowercase form. */
  lemma ClosestMatchIgnoresCase(k1: string, k2: string, acronyms: seq<string>)
    requires Lower(k1) == Lower(k2)
    ensures ClosestMatch(k1, acronyms) == ClosestMatch(k2, acronyms)
  {
    assert Scores(k1, acronyms) == Scores(k2, acronyms);
  }

  // ---------------------------------------------------------------------------
  // match_acronym

  /** The concepts of one category of the lookup table: (name, acronyms), in table order. */
  type Concepts = seq<(string, seq<string>)>

  /** The lookup table: (category, concepts), in table order. */
  type Table = seq<(string, Concepts)>

  /** The default `cutoff` of `match_acronym`. */
  const DEFAULT_CUTOFF: real := 70.0

  /** One entry of `results["candidates"]`. */
  datatype Candidate = Candidate(category: string, name: string, acronym: string, confidence: real)

  /** Some candidate matched with confidence 100, which ends the scan of its category. */
  predicate HasPerfect(cs: seq<Candidate>) {
    exists k :: 0 <= k < |cs| && cs[k].confidence == 100.0
  }

  /** Every confidence is between 0 and 100. */
  predicate Bounded(cs: seq<Candidate>) {
    forall k :: 0 <= k < |cs| ==> 0.0 <= cs[k].confidence <= 100.0
  }

  /**
   * The candidates of one category: one per concept, in order. With `stop` (the
   * `break` of `match_acronym`), the scan ends after the first perfect candidate;
   * without it every concept is scored. An empty acronym list raises.
   */
  function {:induction false} CategoryScan(keyword: string, category: string, concepts: Concepts, stop: bool)
    : (r: Result<seq<Candidate>, SearchError>)
    ensures r.Success? ==> Bounded(r.value)
    decreases |concepts|
  {
    if concepts == [] then Success([])
    else
      var n := |concepts| - 1;
      match CategoryScan(keyword, category, concepts[..n], stop)
      case Failure(e) => Failure(e)
      case Success(prev) =>
        if stop && HasPerfect(prev) then Success(prev)
        else
          match ClosestMatch(keyword, concepts[n].1)
          case Failure(e) => Failure(e)
          case Success(m) => Success(prev + [Candidate(category, concepts[n].0, m.0, m.1)])
  }

  /** The candidates of the whole table: the categories' candidates one after another. */
  function {:induction false} TableScan(keyword: string, table: Table, stop: bool): (r: Result<seq<Candidate>, SearchError>)
    ensures r.Success? ==> Bounded(r.value)
    decreases |table|
  {
    if table == [] then Success([])
    else
      var n := |table| - 1;
      match TableScan(keyword, table[..n], stop)
      case Failure(e) => Failure(e)
      case Success(prev) =>
        match CategoryScan(keyword, table[n].0, table[n].1, stop)
        case Failure(e) => Failure(e)
        case Success(cur) => Success(prev + cur)
  }

  /** The candidates `match_acronym` collects: none unless the keyword is longer than one character. */
  function Candidates(keyword: string, table: Table): (r: Result<seq<Candidate>, SearchError>)
    ensures |keyword| <= 1 ==> r == Success([])
    ensures r.Success? ==> Bounded(r.value)
  {
    if |keyword| > 1 then TableScan(keyword, table, true) else Success([])
  }

  /** `[result["confidence"] for result in results["candidates"]]`. */
  function Confidences(cs: seq<Candidate>): (s: seq<real>)
    ensures |s| == |cs|
  {
    seq(|cs|, i requires 0 <= i < |cs| => cs[i].confidence)
  }

  /** `scores.index(max(scores))`: where the candidate `match_acronym` picks sits. */
  function SelectedIndex(cs: seq<Candidate>): (k: nat)
    requires cs != []
    ensures IsFirstMax(Confidences(cs), k)
  {
    var s := Confidences(cs);
    FirstIndexOfMaximum(s);
    FirstIndex(s, Maximum(s))
  }

  /** The candidate `match_acronym` picks: the first one with the highest confidence. */
  function Selected(cs: seq<Candidate>): (r: Candidate)
    requires cs != []
    ensures r in cs
  {
    cs[SelectedIndex(cs)]
  }

  /** The picked candidate has a confidence at least that of every candidate, and above that of every earlier one. */
  lemma SelectedIsBest(cs: seq<Candidate>, k: int)
    requires 0 <= k < |cs|
    ensures cs[k].confidence <= Selected(cs).confidence
    ensures k < SelectedIndex(cs) ==> cs[k].confidence < Selected(cs).confidence
  {
    assert Confidences(cs)[k] == cs[k].confidence;
  }

  /**
   * The end of `match_acronym` on the candidates `cs`: `max()` of no scores raises;
   * otherwise the picked candidate is looked up with `get_model` when its confidence
   * is strictly above the cutoff, and the result is `None` when it is not.
   */
  function SelectModel(ds: Dataset, cs: seq<Candidate>, cutoff: real): (r: Result<Option<Model>, SearchError>)
    ensures r.Failure? <==> cs == []
    ensures r.Success? ==> (r.value.Some? ==> cutoff < Selected(cs).confidence)
    ensures r.Success? && cutoff < Selected(cs).confidence ==>
      r.value == GetModel(ds, Selected(cs).category, Selected(cs).name)
  {
    if cs == [] then Failure(NoCandidates)
    else
      var best := Selected(cs);
      if cutoff < best.confidence then Success(GetModel(ds, best.category, best.name)) else Success(None)
  }

  /** What `match_acronym` returns, or the error it raises. */
  function MatchResult(ds: Dataset, keyword: string, table: Table, cutoff: real): (r: Result<Option<Model>, SearchError>)
    ensures |keyword| <= 1 ==> r == Failure(NoCandidates)
  {
    match Candidates(keyword, table)
    case Failure(e) => Failure(e)
    case Success(cs) => SelectModel(ds, cs, cutoff)
  }

  /** Once a prefix of a category has raised, or (with `stop`) found a perfect candidate, the rest is skipped. */
  lemma {:induction false} CategoryScanFinal(keyword: string, category: string, concepts: Concepts, m: nat, stop: bool)
    requires m <= |concepts|
    requires var r := CategoryScan(keyword, category, concepts[..m], stop); r.Failure? || (stop && HasPerfect(r.value))
    ensures CategoryScan(keyword, category, concepts, stop) == CategoryScan(keyword, category, concepts[..m], stop)
    decreases |concepts|
  {
    if m < |concepts| {
      var n := |concepts| - 1;
      assert concepts[..n][..m] == concepts[..m];
      CategoryScanFinal(keyword, category, concepts[..n], m, stop);
    } else {
      assert concepts[..m] == concepts;
    }
  }

  /** Once a prefix of the table has raised, the rest is skipped. */
  lemma {:induction false} TableScanFails(keyword: string, table: Table, m: nat, stop: bool)
    requires m <= |table|
    requires TableScan(keyword, table[..m], stop).Failure?
    ensures TableScan(keyword, table, stop) == TableScan(keyword, table[..m], stop)
    decreases |table|
  {
    if m < |table| {
      var n := |table| - 1;
      assert table[..n][..m] == table[..m];
      TableScanFails(keyword, table[..n], m, stop);
    } else {
      assert table[..m] == table;
    }
  }

  /**
   * The inner loop of `match_acronym` over the concepts of one category: one
   * candidate per concept, until a candidate of confidence 100 ends the loop.
   */
  method ScanCategory(keyword: string, category: string, concepts: Concepts) returns (r: Result<seq<Candidate>, SearchError>)
    ensures r == CategoryScan(keyword, category, concepts, true)
  {
    var current: seq<Candidate> := [];
    var j := 0;
    while j < |concepts|
      invariant 0 <= j <= |concepts|
      invariant CategoryScan(keyword, category, concepts[..j], true) == Success(current)
      invariant !HasPerfect(current)
    {
      var name := concepts[j].0;
      var acronyms := concepts[j].1;
      assert concepts[..j + 1][..j] == concepts[..j];
      var closest := FindClosestMatch(keyword, acronyms);
      if closest.Failure? {
        CategoryScanFinal(keyword, category, concepts, j + 1, true);
        return Failure(closest.error);
      }
      var (acronym, confidence) := closest.value;
      current := current + [Candidate(category, name, acronym, confidence)];
      if confidence == 100.0 {
        assert HasPerfect(current) by { assert current[|current| - 1].confidence == 100.0; }
        CategoryScanFinal(keyword, category, concepts, j + 1, true);
        return Success(current);
      }
      assert !HasPerfect(current) by {
        assert forall k :: 0 <= k < |current| - 1 ==> current[k] == current[..|current| - 1][k];
      }
      j := j + 1;
    }
    assert concepts[..j] == concepts;
    r := Success(current);
  }

  /**
   * `match_acronym`: for every concept of every category, the closest acronym and its
   * confidence become a candidate; a perfect candidate skips the rest of its
   * category. Then the first candidate with the highest confidence is accepted when
   * its confidence is strictly above `cutoff`, and its record is looked up with
   * `get_model`.
   */
  method MatchAcronym(ds: Dataset, keyword: string, table: Table, cutoff: real) returns (r: Result<Option<Model>, SearchError>)
    ensures r == MatchResult(ds, keyword, table, cutoff)
  {
    var candidates: seq<Candidate> := [];
    if |keyword| > 1 {
      var i := 0;
      while i < |table|
        invariant 0 <= i <= |table|
        invariant TableScan(keyword, table[..i], true) == Success(candidates)
      {
        assert table[..i + 1][..i] == table[..i];
        var found := ScanCategory(keyword, table[i].0, table[i].1);
        if found.Failure? {
          TableScanFails(keyword, table, i + 1, true);
          return Failure(found.error);
        }
        candidates := candidates + found.value;
        i := i + 1;
      }
      assert table[..i] == table;
    }
    if candidates == [] {
      return Failure(NoCandidates);
    }
    var scores := Confidences(candidates);
    var m := FirstIndex(scores, Maximum(scores));
    var confidence := candidates[m].confidence;
    if cutoff < confidence {
      r := Success(GetModel(ds, candidates[m].category, candidates[m].name));
    } else {
      r := Success(None);
    }
  }

  // ---------------------------------------------------------------------------
  // Properties of match_acronym

  /** Every concept of the category has at least one acronym. */
  predicate NoEmptyAcronyms(concepts: Concepts) {
    forall j :: 0 <= j < |concepts| ==> concepts[j].1 != []
  }

  /** Every concept of the table has at least one acronym, so `find_closest_match` never raises on it. */
  predicate WellFormed(table: Table) {
    forall i :: 0 <= i < |table| ==> NoEmptyAcronyms(table[i].1)
  }

  /** `a` is one of the acronyms of some concept of the table. */
  predicate InTable(table: Table, a: string) {
    exists i, j :: 0 <= i < |table| && 0 <= j < |table[i].1| && a in table[i].1[j].1
  }

  /** The table has at least one concept. */
  predicate HasConcept(table: Table) {
    exists i :: 0 <= i < |table| && table[i].1 != []
  }

  /** `c` is the candidate of a concept of `concepts`: one of its acronyms, with that acronym's score. */
  predicate FromConcepts(keyword: string, category: string, concepts: Concepts, c: Candidate) {
    && c.category == category
    && c.confidence == Score(keyword, c.acronym)
    && exists j :: 0 <= j < |concepts| && c.name == concepts[j].0 && c.acronym in concepts[j].1
  }

  /** `c` is the candidate of a concept of some category of the table. */
  predicate FromTable(keyword: string, table: Table, c: Candidate) {
    exists i :: 0 <= i < |table| && FromConcepts(keyword, table[i].0, table[i].1, c)
  }

  /** `p` is the first candidate of `f` with confidence 100, and `s` agrees with `f` up to it. */
  predicate AgreeToPerfect(s: seq<Candidate>, f: seq<Candidate>, p: int) {
    && 0 <= p < |s| && p < |f|
    && s[..p + 1] == f[..p + 1]
    && f[p].confidence == 100.0
    && forall j :: 0 <= j < p ==> f[j].confidence != 100.0
  }

  /**
   * The candidates `s` of a scan with the `break` and `f` of one without it: the same,
   * or the same up to the first perfect candidate.
   */
  predicate Agree(s: seq<Candidate>, f: seq<Candidate>) {
    s == f || exists p :: 0 <= p < |s| && AgreeToPerfect(s, f, p)
  }

  /** The first candidate with confidence 100. */
  lemma FirstPerfect(f: seq<Candidate>) returns (p: nat)
    requires HasPerfect(f)
    ensures p < |f| && f[p].confidence == 100.0
    ensures forall j :: 0 <= j < p ==> f[j].confidence != 100.0
  {
    var s := Confidences(f);
    var k :| 0 <= k < |f| && f[k].confidence == 100.0;
    assert s[k] == 100.0;
    p := FirstIndex(s, 100.0);
    assert forall j :: 0 <= j < p ==> s[j] == f[j].confidence;
  }

  /** One more candidate `c` on both sides; the side with the `break` takes it only while it has no perfect one. */
  lemma AgreeSnoc(s0: seq<Candidate>, f0: seq<Candidate>, c: Candidate)
    requires Agree(s0, f0)
    ensures Agree(if HasPerfect(s0) then s0 else s0 + [c], f0 + [c])
  {
    var f := f0 + [c];
    if HasPerfect(s0) {
      var p: nat;
      if s0 == f0 {
        p := FirstPerfect(f0);
      } else {
        p :| 0 <= p < |s0| && AgreeToPerfect(s0, f0, p);
      }
      assert f[..p + 1] == f0[..p + 1];
      assert AgreeToPerfect(s0, f, p);
    } else {
      AgreeWithoutPerfect(s0, f0);
    }
  }

  /** Without a perfect candidate on the side with the `break`, the two sides are equal. */
  lemma AgreeWithoutPerfect(s: seq<Candidate>, f: seq<Candidate>)
    requires Agree(s, f)
    ensures HasPerfect(s) || s == f
  {
    if s != f {
      var p :| 0 <= p < |s| && AgreeToPerfect(s, f, p);
      assert s[p] == s[..p + 1][p] == f[..p + 1][p];
    }
  }

  /** Agreeing sides are empty together. */
  lemma AgreeEmpty(s: seq<Candidate>, f: seq<Candidate>)
    requires Agree(s, f)
    ensures s == [] <==> f == []
  {
    if s != f {
      var p :| 0 <= p < |s| && AgreeToPerfect(s, f, p);
    }
  }

  /** The candidate of the last concept of `concepts`, whose acronym list is not empty. */
  function LastCandidate(keyword: string, category: string, concepts: Concepts): Candidate
    requires concepts != [] && concepts[|concepts| - 1].1 != []
  {
    var m := ClosestMatch(keyword, concepts[|concepts| - 1].1).value;
    Candidate(category, concepts[|concepts| - 1].0, m.0, m.1)
  }

  /** One turn of the scan of a category, when the last concept has acronyms and the rest did not raise. */
  lemma CategoryScanStep(keyword: string, category: string, concepts: Concepts, stop: bool)
    requires concepts != [] && concepts[|concepts| - 1].1 != []
    requires CategoryScan(keyword, category, concepts[..|concepts| - 1], stop).Success?
    ensures var prev := CategoryScan(keyword, category, concepts[..|concepts| - 1], stop).value;
      CategoryScan(keyword, category, concepts, stop) ==
        Success(if stop && HasPerfect(prev) then prev else prev + [LastCandidate(keyword, category, concepts)])
  {
  }

  /** Within one category the scan with the `break` agrees with the scan without it. */
  lemma {:induction false} CategoryScanAgree(keyword: string, category: string, concepts: Concepts)
    requires NoEmptyAcronyms(concepts)
    ensures CategoryScan(keyword, category, concepts, true).Success?
    ensures CategoryScan(keyword, category, concepts, false).Success?
    ensures Agree(CategoryScan(keyword, category, concepts, true).value, CategoryScan(keyword, category, concepts, false).value)
    decreases |concepts|
  {
    if concepts != [] {
      var n := |concepts| - 1;
      assert forall j :: 0 <= j < n ==> concepts[..n][j] == concepts[j];
      CategoryScanAgree(keyword, category, concepts[..n]);
      CategoryScanStep(keyword, category, concepts, true);
      CategoryScanStep(keyword, category, concepts, false);
      AgreeSnoc(CategoryScan(keyword, category, concepts[..n], true).value,
        CategoryScan(keyword, category, concepts[..n], false).value, LastCandidate(keyword, category, concepts));
    }
  }

  /** Agreement up to a perfect candidate is kept when anything follows either list. */
  lemma AgreeToPerfectExtend(s: seq<Candidate>, f: seq<Candidate>, p: int, s': seq<Candidate>, f': seq<Candidate>)
    requires AgreeToPerfect(s, f, p)
    ensures AgreeToPerfect(s + s', f + f', p)
  {
    assert (s + s')[..p + 1] == s[..p + 1];
    assert (f + f')[..p + 1] == f[..p + 1];
  }

  /** Agreement up to a perfect candidate is kept behind a common prefix with no perfect candidate. */
  lemma AgreeToPerfectShift(s: seq<Candidate>, s': seq<Candidate>, f': seq<Candidate>, p': int)
    requires AgreeToPerfect(s', f', p') && !HasPerfect(s)
    ensures AgreeToPerfect(s + s', s + f', |s| + p')
  {
    var p := |s| + p';
    assert (s + s')[..p + 1] == s + s'[..p' + 1];
    assert (s + f')[..p + 1] == s + f'[..p' + 1];
    forall j | 0 <= j < p ensures (s + f')[j].confidence != 100.0 {
      if j < |s| { assert (s + f')[j] == s[j]; } else { assert (s + f')[j] == f'[j - |s|]; }
    }
  }

  /** Agreement survives putting two agreeing pairs one after the other. */
  lemma AgreeConcat(s: seq<Candidate>, f: seq<Candidate>, s': seq<Candidate>, f': seq<Candidate>)
    requires Agree(s, f) && Agree(s', f')
    ensures Agree(s + s', f + f')
  {
    if s == f {
      if s' != f' {
        var p' :| 0 <= p' < |s'| && AgreeToPerfect(s', f', p');
        if HasPerfect(f) {
          var p := FirstPerfect(f);
          AgreeToPerfectExtend(s, f, p, s', f');
        } else {
          AgreeToPerfectShift(s, s', f', p');
        }
      }
    } else {
      var p :| 0 <= p < |s| && AgreeToPerfect(s, f, p);
      AgreeToPerfectExtend(s, f, p, s', f');
    }
  }

  /** Over the whole table the scan with the `break` agrees with the scan without it. */
  lemma {:induction false} TableScanAgree(keyword: string, table: Table)
    requires WellFormed(table)
    ensures TableScan(keyword, table, true).Success?
    ensures TableScan(keyword, table, false).Success?
    ensures Agree(TableScan(keyword, table, true).value, TableScan(keyword, table, false).value)
    decreases |table|
  {
    if table != [] {
      var n := |table| - 1;
      assert forall i :: 0 <= i < n ==> table[..n][i] == table[i];
      TableScanAgree(keyword, table[..n]);
      CategoryScanAgree(keyword, table[n].0, table[n].1);
      AgreeConcat(TableScan(keyword, table[..n], true).value, TableScan(keyword, table[..n], false).value,
        CategoryScan(keyword, table[n].0, table[n].1, true).value, CategoryScan(keyword, table[n].0, table[n].1, false).value);
    }
  }

  /** Agreeing candidate lists lead to the same pick. */
  lemma SelectedAgree(s: seq<Candidate>, f: seq<Candidate>)
    requires Agree(s, f) && Bounded(s) && Bounded(f) && f != []
    ensures s != [] && Selected(s) == Selected(f)
  {
    if s != f {
      var p :| 0 <= p < |s| && AgreeToPerfect(s, f, p);
      assert forall j :: 0 <= j <= p ==> s[j] == s[..p + 1][j] == f[..p + 1][j] == f[j];
      var cs, cf := Confidences(s), Confidences(f);
      assert IsFirstMax(cs, p) && IsFirstMax(cf, p);
      FirstMaxUnique(cs, p, SelectedIndex(s));
      FirstMaxUnique(cf, p, SelectedIndex(f));
    }
  }

  /** `match_acronym` as it would be without the `break`: every concept of every category is scored. */
  function MatchResultNoBreak(ds: Dataset, keyword: string, table: Table, cutoff: real): Result<Option<Model>, SearchError> {
    if |keyword| <= 1 then Failure(NoCandidates)
    else
      match TableScan(keyword, table, false)
      case Failure(e) => Failure(e)
      case Success(cs) => SelectModel(ds, cs, cutoff)
  }

  /**
   * The `break` on a perfect score is only an optimisation: as no score exceeds 100
   * and the first best candidate wins, the result is that of the full scan.
   */
  lemma BreakIsOptimisation(ds: Dataset, keyword: string, table: Table, cutoff: real)
    requires WellFormed(table)
    ensures MatchResult(ds, keyword, table, cutoff) == MatchResultNoBreak(ds, keyword, table, cutoff)
  {
    if |keyword| > 1 {
      TableScanAgree(keyword, table);
      var s, f := TableScan(keyword, table, true).value, TableScan(keyword, table, false).value;
      AgreeEmpty(s, f);
      if f != [] {
        SelectedAgree(s, f);
      }
    }
  }

  /** Each candidate of a category scan comes from one of its concepts. */
  lemma {:induction false} CategoryScanSound(keyword: string, category: string, concepts: Concepts, stop: bool)
    requires CategoryScan(keyword, category, concepts, stop).Success?
    ensures forall c :: c in CategoryScan(keyword, category, concepts, stop).value ==> FromConcepts(keyword, category, concepts, c)
    decreases |concepts|
  {
    if concepts != [] {
      var n := |concepts| - 1;
      CategoryScanSound(keyword, category, concepts[..n], stop);
      var prev := CategoryScan(keyword, category, concepts[..n], stop).value;
      forall c | c in prev ensures FromConcepts(keyword, category, concepts, c) {
        var j :| 0 <= j < n && c.name == concepts[..n][j].0 && c.acronym in concepts[..n][j].1;
        assert concepts[..n][j] == concepts[j];
      }
    }
  }

  /** Each candidate of a table scan comes from one of its concepts. */
  lemma {:induction false} TableScanSound(keyword: string, table: Table, stop: bool)
    requires TableScan(keyword, table, stop).Success?
    ensures forall c :: c in TableScan(keyword, table, stop).value ==> FromTable(keyword, table, c)
    decreases |table|
  {
    if table != [] {
      var n := |table| - 1;
      TableScanSound(keyword, table[..n], stop);
      CategoryScanSound(keyword, table[n].0, table[n].1, stop);
      var prev := TableScan(keyword, table[..n], stop).value;
      forall c | c in prev ensures FromTable(keyword, table, c) {
        var i :| 0 <= i < n && FromConcepts(keyword, table[..n][i].0, table[..n][i].1, c);
        assert table[..n][i] == table[i];
      }
    }
  }

  /** The scan without the `break` scores each acronym of each concept of the category, or better. */
  lemma {:induction false} CategoryScanCovers(keyword: string, category: string, concepts: Concepts, j: nat, a: string)
    returns (k: nat)
    requires NoEmptyAcronyms(concepts)
    requires j < |concepts| && a in concepts[j].1
    ensures CategoryScan(keyword, category, concepts, false).Success?
    ensures k < |CategoryScan(keyword, category, concepts, false).value|
    ensures Score(keyword, a) <= CategoryScan(keyword, category, concepts, false).value[k].confidence
    decreases |concepts|
  {
    var n := |concepts| - 1;
    assert forall t :: 0 <= t < n ==> concepts[..n][t] == concepts[t];
    CategoryScanAgree(keyword, category, concepts[..n]);
    var prev := CategoryScan(keyword, category, concepts[..n], false).value;
    var r := CategoryScan(keyword, category, concepts, false).value;
    if j == n {
      var x :| 0 <= x < |concepts[n].1| && concepts[n].1[x] == a;
      assert r[|prev|].confidence == ClosestMatch(keyword, concepts[n].1).value.1;
      k := |prev|;
    } else {
      k := CategoryScanCovers(keyword, category, concepts[..n], j, a);
      assert r[k] == prev[k];
    }
  }

  /** On a well-formed table the scan without the `break` is the last category's candidates after the rest's. */
  lemma TableScanSplit(keyword: string, table: Table)
    requires WellFormed(table) && table != []
    ensures var n := |table| - 1;
      && WellFormed(table[..n])
      && TableScan(keyword, table[..n], false).Success?
      && CategoryScan(keyword, table[n].0, table[n].1, false).Success?
      && TableScan(keyword, table, false)
         == Success(TableScan(keyword, table[..n], false).value + CategoryScan(keyword, table[n].0, table[n].1, false).value)
  {
    var n := |table| - 1;
    assert forall t :: 0 <= t < n ==> table[..n][t] == table[t];
    TableScanAgree(keyword, table[..n]);
    CategoryScanAgree(keyword, table[n].0, table[n].1);
  }

  /** The scan without the `break` scores each acronym of the table, or better. */
  lemma {:induction false} TableScanCovers(keyword: string, table: Table, i: nat, j: nat, a: string)
    returns (k: nat)
    requires WellFormed(table)
    requires i < |table| && j < |table[i].1| && a in table[i].1[j].1
    ensures TableScan(keyword, table, false).Success?
    ensures k < |TableScan(keyword, table, false).value|
    ensures Score(keyword, a) <= TableScan(keyword, table, false).value[k].confidence
    decreases |table|
  {
    var n := |table| - 1;
    if i == n {
      k := LastCategoryCovers(keyword, table, j, a);
    } else {
      TableScanSplit(keyword, table);
      assert table[..n][i] == table[i];
      k := TableScanCovers(keyword, table[..n], i, j, a);
      assert TableScan(keyword, table, false).value[k] == TableScan(keyword, table[..n], false).value[k];
    }
  }

  /** The step of `TableScanCovers` for an acronym of the table's last category. */
  lemma LastCategoryCovers(keyword: string, table: Table, j: nat, a: string)
    returns (k: nat)
    requires WellFormed(table) && table != []
    requires j < |table[|table| - 1].1| && a in table[|table| - 1].1[j].1
    ensures TableScan(keyword, table, false).Success?
    ensures k < |TableScan(keyword, table, false).value|
    ensures Score(keyword, a) <= TableScan(keyword, table, false).value[k].confidence
  {
    var n := |table| - 1;
    TableScanSplit(keyword, table);
    var prev := TableScan(keyword, table[..n], false).value;
    var cur := CategoryScan(keyword, table[n].0, table[n].1, false).value;
    var r := TableScan(keyword, table, false).value;
    assert r == prev + cur;
    var c := CategoryScanCovers(keyword, table[n].0, table[n].1, j, a);
    k := |prev| + c;
    assert r[k] == cur[c];
  }

  /**
   * `match_acronym` on a well-formed table and a keyword of two or more characters:
   * it raises only when the table has no concept; the picked candidate clears the
   * cutoff exactly when some acronym of the table scores strictly above it, and then
   * the result is `get_model` of the picked candidate; otherwise it is `None`.
   */
  lemma MatchAcronymSpec(ds: Dataset, keyword: string, table: Table, cutoff: real)
    requires WellFormed(table) && |keyword| > 1
    ensures MatchResult(ds, keyword, table, cutoff).Failure? <==> !HasConcept(table)
    ensures MatchResult(ds, keyword, table, cutoff).Success? ==>
      var cs := TableScan(keyword, table, true).value;
      && cs != []
      && FromTable(keyword, table, Selected(cs))
      && (cutoff < Selected(cs).confidence <==> exists a :: InTable(table, a) && cutoff < Score(keyword, a))
      && MatchResult(ds, keyword, table, cutoff) ==
        if cutoff < Selected(cs).confidence then Success(GetModel(ds, Selected(cs).category, Selected(cs).name))
        else Success(None)
  {
    TableScanAgree(keyword, table);
    var s, f := TableScan(keyword, table, true).value, TableScan(keyword, table, false).value;
    TableScanSound(keyword, table, true);
    if s != [] {
      FromTableHasConcept(keyword, table, s[0]);
    }
    if HasConcept(table) {
      var i :| 0 <= i < |table| && table[i].1 != [];
      assert table[i].1[0].1 != [];
      var _ := TableScanCovers(keyword, table, i, 0, table[i].1[0].1[0]);
      SelectedAgree(s, f);
      assert Selected(s) in s;
      if exists a :: InTable(table, a) && cutoff < Score(keyword, a) {
        var a :| InTable(table, a) && cutoff < Score(keyword, a);
        var i', j' :| 0 <= i' < |table| && 0 <= j' < |table[i'].1| && a in table[i'].1[j'].1;
        var k := TableScanCovers(keyword, table, i', j', a);
        SelectedIsBest(f, k);
      }
      if cutoff < Selected(s).confidence {
        var c := Selected(s);
        var i', j' :| 0 <= i' < |table| && 0 <= j' < |table[i'].1| && c.acronym in table[i'].1[j'].1
          && c.category == table[i'].0 && c.name == table[i'].1[j'].0 && c.confidence == Score(keyword, c.acronym);
        assert InTable(table, c.acronym);
      }
    }
  }

  /** A table that yields a candidate has a concept. */
  lemma FromTableHasConcept(keyword: string, table: Table, c: Candidate)
    requires FromTable(keyword, table, c)
    ensures HasConcept(table)
  {
    var i :| 0 <= i < |table| && FromConcepts(keyword, table[i].0, table[i].1, c);
  }

  /** The keyword and its case: equal after lowercasing, same category candidates. */
  lemma {:induction false} CategoryScanIgnoresCase(k1: string, k2: string, category: string, concepts: Concepts, stop: bool)
    requires Lower(k1) == Lower(k2)
    ensures CategoryScan(k1, category, concepts, stop) == CategoryScan(k2, category, concepts, stop)
    decreases |concepts|
  {
    if concepts != [] {
      var n := |concepts| - 1;
      CategoryScanIgnoresCase(k1, k2, category, concepts[..n], stop);
      ClosestMatchIgnoresCase(k1, k2, concepts[n].1);
    }
  }

  lemma {:induction false} TableScanIgnoresCase(k1: string, k2: string, table: Table, stop: bool)
    requires Lower(k1) == Lower(k2)
    ensures TableScan(k1, table, stop) == TableScan(k2, table, stop)
    decreases |table|
  {
    if table != [] {
      var n := |table| - 1;
      TableScanIgnoresCase(k1, k2, table[..n], stop);
      CategoryScanIgnoresCase(k1, k2, table[n].0, table[n].1, stop);
    }
  }

  /** `match_acronym` gives the same result for two keywords equal after lowercasing. */
  lemma MatchAcronymIgnoresCase(ds: Dataset, k1: string, k2: string, table: Table, cutoff: real)
    requires Lower(k1) == Lower(k2)
    ensures MatchResult(ds, k1, table, cutoff) == MatchResult(ds, k2, table, cutoff)
  {
    assert |k1| == |Lower(k1)| == |Lower(k2)| == |k2|;
    TableScanIgnoresCase(k1, k2, table, true);
  }

  /** Once some acronym of the table scores above the cutoff, the match is accepted. */
  lemma AcceptedAboveCutoff(ds: Dataset, keyword: string, table: Table, cutoff: real, a: string)
    requires WellFormed(table) && |keyword| > 1
    requires InTable(table, a) && cutoff < Score(keyword, a)
    ensures TableScan(keyword, table, true).Success?
    ensures var cs := TableScan(keyword, table, true).value;
      && MatchResult(ds, keyword, table, cutoff).Success?
      && cs != []
      && Score(keyword, a) <= Selected(cs).confidence
      && MatchResult(ds, keyword, table, cutoff) == Success(GetModel(ds, Selected(cs).category, Selected(cs).name))
  {
    var i, j :| 0 <= i < |table| && 0 <= j < |table[i].1| && a in table[i].1[j].1;
    assert HasConcept(table);
    MatchAcronymSpec(ds, keyword, table, cutoff);
    TableScanAgree(keyword, table);
    var k := TableScanCovers(keyword, table, i, j, a);
    var s, f := TableScan(keyword, table, true).value, TableScan(keyword, table, false).value;
    SelectedIsBest(f, k);
    SelectedAgree(s, f);
  }

  /** A keyword equal, ignoring case, to an acronym of the table is accepted at the default cutoff, with confidence 100. */
  lemma ExactAcronymAccepted(ds: Dataset, keyword: string, table: Table, a: string)
    requires WellFormed(table) && |keyword| > 1
    requires InTable(table, a) && Lower(keyword) == Lower(a)
    ensures TableScan(keyword, table, true).Success?
    ensures var cs := TableScan(keyword, table, true).value;
      && cs != [] && Selected(cs).confidence == 100.0
      && MatchResult(ds, keyword, table, DEFAULT_CUTOFF) == Success(GetModel(ds, Selected(cs).category, Selected(cs).name))
  {
    ScoreOfSameLower(keyword, a);
    AcceptedAboveCutoff(ds, keyword, table, DEFAULT_CUTOFF, a);
  }

  /**
   * An acronym of two or more characters with one character appended (a kept symbol,
   * say) still scores at least 80 and is accepted at the default cutoff.
   */
  lemma OneMoreCharacterAccepted(ds: Dataset, table: Table, a: string, c: char)
    requires WellFormed(table) && InTable(table, a) && |a| >= 2
    ensures TableScan(a + [c], table, true).Success?
    ensures var cs := TableScan(a + [c], table, true).value;
      && cs != [] && 80.0 <= Selected(cs).confidence
      && MatchResult(ds, a + [c], table, DEFAULT_CUTOFF) == Success(GetModel(ds, Selected(cs).category, Selected(cs).name))
  {
    ScoreOfOneMore(a, c);
    AcceptedAboveCutoff(ds, a + [c], table, DEFAULT_CUTOFF, a);
  }

  /**
   * When the keyword equals, ignoring case, exactly one acronym `a` of the table,
   * and `a` belongs to one concept only, that concept is the one picked and looked up.
   */
  lemma UniqueAcronymPicked(ds: Dataset, keyword: string, table: Table, a: string, i: nat, j: nat)
    requires WellFormed(table) && |keyword| > 1
    requires i < |table| && j < |table[i].1| && a in table[i].1[j].1
    requires Lower(keyword) == Lower(a)
    requires forall b :: InTable(table, b) && Lower(b) == Lower(a) ==> b == a
    requires forall i', j' :: 0 <= i' < |table| && 0 <= j' < |table[i'].1| && a in table[i'].1[j'].1 ==> i' == i && j' == j
    ensures TableScan(keyword, table, true).Success?
    ensures var cs := TableScan(keyword, table, true).value;
      && cs != []
      && Selected(cs).category == table[i].0 && Selected(cs).name == table[i].1[j].0
      && MatchResult(ds, keyword, table, DEFAULT_CUTOFF) == Success(GetModel(ds, table[i].0, table[i].1[j].0))
  {
    assert InTable(table, a);
    ExactAcronymAccepted(ds, keyword, table, a);
    MatchAcronymSpec(ds, keyword, table, DEFAULT_CUTOFF);
    var c := Selected(TableScan(keyword, table, true).value);
    var i', j' :| 0 <= i' < |table| && 0 <= j' < |table[i'].1| && c.acronym in table[i'].1[j'].1
      && c.category == table[i'].0 && c.name == table[i'].1[j'].0 && c.confidence == Score(keyword, c.acronym);
    RatioPerfect(Lower(keyword), Lower(c.acronym));
    assert InTable(table, c.acronym);
  }
}
