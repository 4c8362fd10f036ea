/**
 * src/mri_acronyms/models/validate_models.py: the symbol class and `sanitize`,
 * `dedup_acronyms`, and the two duplicate detectors run over the curated tables.
 */
module Validation {
  import opened Wrappers
  import opened Text
  import opened Models
  import opened Categories
  import Constants

  // ---------------------------------------------------------------------------
  // re_compile_symbol_pattern

  /** `list(string.punctuation + "\t" + "\n")`, the list the pattern starts from. */
  const SYMBOL_CANDIDATES: string := Constants.PUNCTUATION + "\t\n"

  /** Python's `list.remove`: drop the first occurrence of `v`. */
  function RemoveFirst(s: string, v: char): (r: string)
    requires v in s
    ensures |r| == |s| - 1
  {
    if s[0] == v then s[1..] else [s[0]] + RemoveFirst(s[1..], v)
  }

  /** `s` with every character of `vs` taken out, order kept. */
  function Without(s: string, vs: string): string {
    if s == [] then [] else (if s[0] in vs then [] else [s[0]]) + Without(s[1..], vs)
  }

  lemma {:induction false} WithoutMember(s: string, vs: string, c: char)
    ensures c in Without(s, vs) <==> c in s && c !in vs
  {
    if s != [] {
      WithoutMember(s[1..], vs, c);
      assert s == [s[0]] + s[1..];
    }
  }

  lemma {:induction false} WithoutConcat(a: string, b: string, vs: string)
    ensures Without(a + b, vs) == Without(a, vs) + Without(b, vs)
  {
    if a != [] {
      assert (a + b)[1..] == a[1..] + b;
      WithoutConcat(a[1..], b, vs);
    } else {
      assert a + b == b;
    }
  }

  lemma {:induction false} RemoveFirstPrefix(x: string, y: string, v: char)
    requires v !in x
    ensures RemoveFirst(x + [v] + y, v) == x + y
  {
    if x != [] {
      assert (x + [v] + y)[1..] == x[1..] + [v] + y;
      RemoveFirstPrefix(x[1..], y, v);
    } else {
      assert x + [v] + y == [v] + y;
    }
  }

  /** Removing the first `v` deletes the only `v`. */
  lemma RemoveFirstWithout(x: string, y: string, vs: string, v: char)
    requires v !in x && v !in y && v !in vs
    ensures v in Without(x + [v] + y, vs)
    ensures RemoveFirst(Without(x + [v] + y, vs), v) == Without(x + [v] + y, vs + [v])
  {
    var wx, wy := Without(x, vs), Without(y, vs);
    assert Without(x + [v] + y, vs) == wx + [v] + wy by {
      WithoutAround(x, y, vs, v);
    }
    assert Without(x + [v] + y, vs + [v]) == wx + wy by {
      WithoutAround(x, y, vs + [v], v);
      WithoutSame(x, vs, v);
      WithoutSame(y, vs, v);
    }
    assert RemoveFirst(wx + [v] + wy, v) == wx + wy by {
      WithoutMember(x, vs, v);
      RemoveFirstPrefix(wx, wy, v);
    }
  }

  lemma WithoutAround(x: string, y: string, vs: string, v: char)
    ensures Without(x + [v] + y, vs) == Without(x, vs) + (if v in vs then [] else [v]) + Without(y, vs)
  {
    assert Without([v], vs) == (if v in vs then [] else [v]) by { assert [v][1..] == []; }
    WithoutConcat(x + [v], y, vs);
    WithoutConcat(x, [v], vs);
  }

  /** Adding a character absent from `s` to `vs` changes nothing. */
  lemma {:induction false} WithoutSame(s: string, vs: string, v: char)
    requires v !in s
    ensures Without(s, vs + [v]) == Without(s, vs)
  {
    if s != [] {
      assert s[0] != v;
      WithoutSame(s[1..], vs, v);
    }
  }

  /** `string.punctuation` lists its characters in increasing code order. */
  lemma PunctuationIncreasing()
    ensures forall i :: 0 < i < |Constants.PUNCTUATION| ==> Constants.PUNCTUATION[i - 1] < Constants.PUNCTUATION[i]
  {
  }

  lemma {:induction false} IncreasingDistinct(s: string, i: nat, j: nat)
    requires forall k :: 0 < k < |s| ==> s[k - 1] < s[k]
    requires i < j < |s|
    ensures s[i] < s[j]
  {
    if i + 1 < j {
      IncreasingDistinct(s, i, j - 1);
    }
  }

  /** The position of `VALID_SYMBOLS[k]` in the candidates, where it occurs once. */
  lemma ValidSymbolsOccurOnce(k: nat) returns (p: nat)
    requires k < |Constants.VALID_SYMBOLS|
    ensures var s, v := SYMBOL_CANDIDATES, Constants.VALID_SYMBOLS[k];
      && p < |s| && s[p] == v && v !in s[..p] && v !in s[p + 1..]
      && v !in Constants.VALID_SYMBOLS[..k]
  {
    var s, q := SYMBOL_CANDIDATES, Constants.PUNCTUATION;
    p := if k == 0 then 13 else if k == 1 then 12 else if k == 2 then 29 else if k == 3 then 14 else 9;
    var v := Constants.VALID_SYMBOLS[k];
    assert s[p] == v;
    PunctuationIncreasing();
    forall i | 0 <= i < |s| && i != p ensures s[i] != v {
      if i >= |q| {
        assert s[i] == '\t' || s[i] == '\n';
      } else if i < p {
        IncreasingDistinct(q, i, p);
      } else {
        IncreasingDistinct(q, p, i);
      }
    }
    assert forall i :: 0 <= i < p ==> s[..p][i] == s[i];
    assert forall i :: p + 1 <= i < |s| ==> s[p + 1..][i - p - 1] == s[i];
  }

  /**
   * `re_compile_symbol_pattern`: the characters of the pattern's class, which are
   * `string.punctuation`, tab and line feed, less each of `VALID_SYMBOLS`.
   */
  method ReCompileSymbolPattern() returns (symbols: string)
    ensures symbols == Without(SYMBOL_CANDIDATES, Constants.VALID_SYMBOLS)
    ensures |symbols| == |SYMBOL_CANDIDATES| - |Constants.VALID_SYMBOLS|
    ensures forall c :: c in symbols <==> IsRemovable(c)
  {
    symbols := SYMBOL_CANDIDATES;
    assert symbols == Without(SYMBOL_CANDIDATES, []) by { WithoutNothing(SYMBOL_CANDIDATES); }
    var valid := Constants.VALID_SYMBOLS;
    var k := 0;
    while k < |valid|
      invariant 0 <= k <= |valid|
      invariant symbols == Without(SYMBOL_CANDIDATES, valid[..k])
      invariant |symbols| == |SYMBOL_CANDIDATES| - k
    {
      var v := valid[k];
      RemoveStep(k);
      if v in symbols {
        symbols := RemoveFirst(symbols, v);
      }
      k := k + 1;
    }
    assert valid[..k] == valid;
    forall c ensures c in symbols <==> IsRemovable(c) {
      WithoutMember(SYMBOL_CANDIDATES, valid, c);
      RemovableIff(c);
    }
  }

  /** One turn of the loop of `re_compile_symbol_pattern`. */
  lemma RemoveStep(k: nat)
    requires k < |Constants.VALID_SYMBOLS|
    ensures var valid, v := Constants.VALID_SYMBOLS, Constants.VALID_SYMBOLS[k];
      && v in Without(SYMBOL_CANDIDATES, valid[..k])
      && RemoveFirst(Without(SYMBOL_CANDIDATES, valid[..k]), v) == Without(SYMBOL_CANDIDATES, valid[..k + 1])
  {
    var p := ValidSymbolsOccurOnce(k);
    RemoveOnlyOccurrence(SYMBOL_CANDIDATES, Constants.VALID_SYMBOLS, k, p);
  }

  /** Removing `vs[k]`, which occurs once in `s` (at `p`), after `vs[..k]` were taken out. */
  lemma RemoveOnlyOccurrence(s: string, vs: string, k: nat, p: nat)
    requires k < |vs| && p < |s| && s[p] == vs[k]
    requires vs[k] !in s[..p] && vs[k] !in s[p + 1..] && vs[k] !in vs[..k]
    ensures vs[k] in Without(s, vs[..k])
    ensures RemoveFirst(Without(s, vs[..k]), vs[k]) == Without(s, vs[..k + 1])
  {
    var v, x, y, done := vs[k], s[..p], s[p + 1..], vs[..k];
    SplitAt(s, p);
    PrefixSnoc(vs, k);
    RemoveFirstWithout(x, y, done, v);
  }

  lemma PrefixSnoc(vs: string, k: nat)
    requires k < |vs|
    ensures vs[..k + 1] == vs[..k] + [vs[k]]
  {
  }

  lemma SplitAt(s: string, p: nat)
    requires p < |s|
    ensures s == s[..p] + [s[p]] + s[p + 1..]
  {
  }

  lemma {:induction false} WithoutNothing(s: string)
    ensures Without(s, []) == s
  {
    if s != [] {
      WithoutNothing(s[1..]);
    }
  }

  /**
   * A character the compiled pattern matches, and which `sanitize` therefore deletes:
   * ASCII punctuation other than the kept symbols, tab and line feed (`RemovableIff`
   * ties this to the way the pattern is built).
   */
  predicate IsRemovable(c: char) {
    (IsAsciiPunctuation(c) && c !in Constants.VALID_SYMBOLS) || c == '\t' || c == '\n'
  }

  /** The ASCII punctuation characters, by code ranges. */
  predicate IsAsciiPunctuation(c: char) {
    ('!' <= c <= '/') || (':' <= c <= '@') || ('[' <= c <= '`') || ('{' <= c <= '~')
  }

  lemma PunctuationInRanges(c: char)
    requires c in Constants.PUNCTUATION
    ensures IsAsciiPunctuation(c)
  {
  }

  lemma RangesInPunctuation(c: char)
    requires IsAsciiPunctuation(c)
    ensures c in Constants.PUNCTUATION
  {
    var p := Constants.PUNCTUATION;
    if '!' <= c <= '/' { assert p[c as int - 33] == c; }
    else if ':' <= c <= '@' { assert p[c as int - 43] == c; }
    else if '[' <= c <= '`' { assert p[c as int - 69] == c; }
    else { assert p[c as int - 95] == c; }
  }

  /**
   * The pattern's class, `string.punctuation` with tab and line feed and without the
   * five kept symbols, is exactly the ASCII punctuation other than those symbols,
   * together with tab and line feed.
   */
  lemma RemovableIff(c: char)
    ensures IsRemovable(c) <==> c in SYMBOL_CANDIDATES && c !in Constants.VALID_SYMBOLS
  {
    if c in Constants.PUNCTUATION { PunctuationInRanges(c); }
    if IsAsciiPunctuation(c) { RangesInPunctuation(c); }
    assert c in SYMBOL_CANDIDATES <==> c in Constants.PUNCTUATION || c == '\t' || c == '\n';
  }

  // ---------------------------------------------------------------------------
  // sanitize

  /** `re.sub(RE_SYMBOL_PATTERN, "", text)`: delete every character of the class. */
  function DropSymbols(t: string): (r: string)
    ensures |r| <= |t|
  {
    if t == [] then [] else (if IsRemovable(t[0]) then [] else [t[0]]) + DropSymbols(t[1..])
  }

  /** `t` without its leading whitespace. */
  function DropSpaces(t: string): (r: string)
    ensures |r| <= |t| && r == t[|t| - |r|..]
    ensures r == [] || !IsSpace(r[0])
    ensures forall i :: 0 <= i < |t| - |r| ==> IsSpace(t[i])
  {
    if t != [] && IsSpace(t[0]) then DropSpaces(t[1..]) else t
  }

  /** `t` without its trailing whitespace. */
  function StripRight(t: string): (r: string)
    ensures |r| <= |t| && r == t[..|r|]
    ensures r == [] || !IsSpace(r[|r| - 1])
    ensures forall i :: |r| <= i < |t| ==> IsSpace(t[i])
  {
    if t != [] && IsSpace(t[|t| - 1]) then StripRight(t[..|t| - 1]) else t
  }

  /** `str.strip()`: whitespace taken off both ends. */
  function Strip(t: string): (r: string)
    ensures |r| <= |t|
  {
    StripRight(DropSpaces(t))
  }

  /** `re.sub(r"\s+", " ", text)`: every maximal run of whitespace becomes one space. */
  function Collapse(t: string): (r: string)
    ensures |r| <= |t|
    ensures r == [] <==> t == []
    ensures r != [] ==> (IsSpace(r[0]) <==> IsSpace(t[0]))
    decreases |t|
  {
    if t == [] then []
    else if IsSpace(t[0]) then " " + Collapse(DropSpaces(t[1..]))
    else [t[0]] + Collapse(t[1..])
  }

  /** `sanitize`: the symbol filter, then the whitespace collapse, then the strip. */
  function Sanitize(t: string): (r: string)
    ensures |r| <= |t|
  {
    Strip(Collapse(DropSymbols(t)))
  }

  /** The non-whitespace characters of `t`, in order. */
  function NonSpace(t: string): string {
    if t == [] then [] else (if IsSpace(t[0]) then [] else [t[0]]) + NonSpace(t[1..])
  }

  /** The characters `sanitize` keeps from `t`: neither in the symbol class nor whitespace. */
  function Kept(t: string): string {
    if t == [] then []
    else (if IsRemovable(t[0]) || IsSpace(t[0]) then [] else [t[0]]) + Kept(t[1..])
  }

  /** Every whitespace character of `t` is a plain space. */
  predicate BlankSpacesOnly(t: string) {
    forall i :: 0 <= i < |t| && IsSpace(t[i]) ==> t[i] == ' '
  }

  /** No two whitespace characters are adjacent in `t`. */
  predicate NoDoubleSpace(t: string) {
    forall i :: 0 < i < |t| ==> !(IsSpace(t[i - 1]) && IsSpace(t[i]))
  }

  /** `t` neither starts nor ends with whitespace. */
  predicate Trimmed(t: string) {
    t == [] || (!IsSpace(t[0]) && !IsSpace(t[|t| - 1]))
  }

  /** No character of `t` is in the symbol class. */
  predicate NoSymbols(t: string) {
    forall i :: 0 <= i < |t| ==> !IsRemovable(t[i])
  }

  lemma {:induction false} NonSpaceConcat(a: string, b: string)
    ensures NonSpace(a + b) == NonSpace(a) + NonSpace(b)
  {
    if a == [] {
      assert a + b == b;
    } else {
      assert (a + b)[1..] == a[1..] + b;
      NonSpaceConcat(a[1..], b);
    }
  }

  /** Only whitespace is dropped by taking leading whitespace off. */
  lemma {:induction false} NonSpaceDropSpaces(t: string)
    ensures NonSpace(DropSpaces(t)) == NonSpace(t)
  {
    if t != [] && IsSpace(t[0]) {
      NonSpaceDropSpaces(t[1..]);
    }
  }

  lemma {:induction false} NonSpaceStripRight(t: string)
    ensures NonSpace(StripRight(t)) == NonSpace(t)
  {
    if t != [] && IsSpace(t[|t| - 1]) {
      var u := t[..|t| - 1];
      assert t == u + [t[|t| - 1]];
      NonSpaceConcat(u, [t[|t| - 1]]);
      NonSpaceStripRight(u);
    }
  }

  lemma {:induction false} NonSpaceCollapse(t: string)
    ensures NonSpace(Collapse(t)) == NonSpace(t)
    decreases |t|
  {
    if t != [] {
      if IsSpace(t[0]) {
        var d := DropSpaces(t[1..]);
        NonSpaceCollapse(d);
        NonSpaceDropSpaces(t[1..]);
        NonSpaceConcat(" ", Collapse(d));
      } else {
        NonSpaceCollapse(t[1..]);
        NonSpaceConcat([t[0]], Collapse(t[1..]));
      }
    }
  }

  lemma {:induction false} NonSpaceDropSymbols(t: string)
    ensures NonSpace(DropSymbols(t)) == Kept(t)
  {
    if t != [] {
      NonSpaceDropSymbols(t[1..]);
      NonSpaceConcat(if IsRemovable(t[0]) then [] else [t[0]], DropSymbols(t[1..]));
    }
  }

  /**
   * What survives `sanitize` apart from whitespace: exactly the characters outside
   * the symbol class and outside whitespace, each once and in their original order.
   */
  lemma SanitizeKeeps(t: string)
    ensures NonSpace(Sanitize(t)) == Kept(t)
  {
    var c := Collapse(DropSymbols(t));
    NonSpaceDropSymbols(t);
    NonSpaceCollapse(DropSymbols(t));
    NonSpaceDropSpaces(c);
    NonSpaceStripRight(DropSpaces(c));
  }

  lemma {:induction false} CollapseShape(t: string)
    ensures BlankSpacesOnly(Collapse(t)) && NoDoubleSpace(Collapse(t))
    decreases |t|
  {
    if t != [] {
      if IsSpace(t[0]) {
        var d := DropSpaces(t[1..]);
        CollapseShape(d);
        ShapeCons(' ', Collapse(d));
      } else {
        CollapseShape(t[1..]);
        ShapeCons(t[0], Collapse(t[1..]));
      }
    }
  }

  /** Putting a character in front keeps the shape when a space is never followed by whitespace. */
  lemma ShapeCons(x: char, r: string)
    requires BlankSpacesOnly(r) && NoDoubleSpace(r)
    requires IsSpace(x) ==> x == ' ' && (r == [] || !IsSpace(r[0]))
    ensures BlankSpacesOnly([x] + r) && NoDoubleSpace([x] + r)
  {
    var t := [x] + r;
    assert forall i :: 0 < i < |t| ==> t[i] == r[i - 1];
  }

  lemma SliceShape(t: string, a: nat, b: nat)
    requires a <= b <= |t|
    requires BlankSpacesOnly(t) && NoDoubleSpace(t)
    ensures BlankSpacesOnly(t[a..b]) && NoDoubleSpace(t[a..b])
  {
    assert forall i :: 0 <= i < b - a ==> t[a..b][i] == t[a + i];
  }

  /** `str.strip()` returns a trimmed slice of its input. */
  lemma StripIsSlice(t: string) returns (k: nat, n: nat)
    ensures k + n <= |t| && Strip(t) == t[k..k + n]
    ensures Trimmed(Strip(t))
  {
    var d := DropSpaces(t);
    k := |t| - |d|;
    var r := StripRight(d);
    n := |r|;
    SliceOfSuffix(t, k, n);
    StripTrimmed(t);
  }

  lemma SliceOfSuffix(t: string, k: nat, n: nat)
    requires k + n <= |t|
    ensures t[k..][..n] == t[k..k + n]
  {
  }

  lemma StripTrimmed(t: string)
    ensures Trimmed(Strip(t))
  {
    var d := DropSpaces(t);
    var r := StripRight(d);
    if r != [] {
      HeadOfPrefix(d, |r|);
    }
  }

  lemma HeadOfPrefix(d: string, n: nat)
    requires 0 < n <= |d|
    ensures d[..n][0] == d[0]
  {
  }

  lemma StripShape(t: string)
    requires BlankSpacesOnly(t) && NoDoubleSpace(t)
    ensures BlankSpacesOnly(Strip(t)) && NoDoubleSpace(Strip(t)) && Trimmed(Strip(t))
  {
    var k, n := StripIsSlice(t);
    SliceShape(t, k, k + n);
  }

  /**
   * The shape `sanitize` promises: whitespace only as single spaces, never two in a
   * row and none at either end.
   */
  lemma SanitizeShape(t: string)
    ensures BlankSpacesOnly(Sanitize(t))
    ensures NoDoubleSpace(Sanitize(t))
    ensures Trimmed(Sanitize(t))
  {
    CollapseShape(DropSymbols(t));
    StripShape(Collapse(DropSymbols(t)));
  }

  lemma {:induction false} KeptHasNoSymbols(t: string)
    ensures NoSymbols(Kept(t))
  {
    if t != [] {
      KeptHasNoSymbols(t[1..]);
    }
  }

  lemma {:induction false} NonSpaceMember(t: string, i: nat)
    requires i < |t| && !IsSpace(t[i])
    ensures t[i] in NonSpace(t)
  {
    if i > 0 {
      NonSpaceMember(t[1..], i - 1);
      NonSpaceConcat([t[0]], t[1..]);
      assert t == [t[0]] + t[1..];
    }
  }

  /** `sanitize` leaves no character of the symbol class. */
  lemma SanitizeNoSymbols(t: string)
    ensures NoSymbols(Sanitize(t))
  {
    SanitizeShape(t);
    SanitizeKeeps(t);
    KeptHasNoSymbols(t);
    SymbolsOnlyInNonSpace(Sanitize(t), Kept(t));
  }

  /** A text whose whitespace is plain spaces has symbols only where its non-whitespace does. */
  lemma SymbolsOnlyInNonSpace(r: string, k: string)
    requires BlankSpacesOnly(r) && NonSpace(r) == k && NoSymbols(k)
    ensures NoSymbols(r)
  {
    forall i | 0 <= i < |r| ensures !IsRemovable(r[i]) {
      if !IsSpace(r[i]) {
        NonSpaceMember(r, i);
        var j :| 0 <= j < |k| && k[j] == r[i];
      }
    }
  }

  lemma {:induction false} DropSymbolsIdentity(t: string)
    requires NoSymbols(t)
    ensures DropSymbols(t) == t
  {
    if t != [] {
      assert NoSymbols(t[1..]) by {
        forall i | 0 <= i < |t[1..]| ensures !IsRemovable(t[1..][i]) { assert t[1..][i] == t[i + 1]; }
      }
      DropSymbolsIdentity(t[1..]);
    }
  }

  lemma {:induction false} CollapseIdentity(t: string)
    requires BlankSpacesOnly(t) && NoDoubleSpace(t)
    ensures Collapse(t) == t
    decreases |t|
  {
    if t != [] {
      var u := t[1..];
      assert BlankSpacesOnly(u) && NoDoubleSpace(u) by {
        assert forall i :: 0 <= i < |u| ==> u[i] == t[i + 1];
      }
      CollapseIdentity(u);
      if IsSpace(t[0]) {
        assert u == [] || !IsSpace(u[0]) by { if u != [] { assert u[0] == t[1]; } }
        assert DropSpaces(u) == u;
        assert t == " " + u;
      } else {
        assert t == [t[0]] + u;
      }
    }
  }

  lemma StripIdentity(t: string)
    requires Trimmed(t)
    ensures Strip(t) == t
  {
  }

  /** A text `sanitize` leaves alone: no symbol, only single plain spaces, nothing at either end. */
  predicate Clean(t: string) {
    NoSymbols(t) && BlankSpacesOnly(t) && NoDoubleSpace(t) && Trimmed(t)
  }

  /** A clean text is a fixed point of all three rewrites. */
  lemma CleanFixedPoint(t: string)
    requires Clean(t)
    ensures Sanitize(t) == t
  {
    DropSymbolsIdentity(t);
    CollapseIdentity(t);
    StripIdentity(t);
  }

  /** `sanitize(sanitize(t)) == sanitize(t)`. */
  lemma SanitizeIdempotent(t: string)
    ensures Sanitize(Sanitize(t)) == Sanitize(t)
  {
    SanitizeNoSymbols(t);
    SanitizeShape(t);
    CleanFixedPoint(Sanitize(t));
  }

  /** A sanitised text always passes the `description` validator. */
  lemma SanitizedPassesDescription(t: string)
    ensures CheckDescription(Sanitize(t)) == Success(Sanitize(t))
  {
    SanitizeShape(t);
  }

  // Compositional facts for computing `sanitize` on given texts.

  /** An ASCII letter or digit. */
  predicate IsAlnum(c: char) {
    ('a' <= c <= 'z') || ('A' <= c <= 'Z') || ('0' <= c <= '9')
  }

  /** `t` is a run of letters and digits. */
  predicate AlnumWord(t: string) {
    forall i :: 0 <= i < |t| ==> IsAlnum(t[i])
  }

  /** `t` is a run of whitespace. */
  predicate SpaceRun(t: string) {
    forall i :: 0 <= i < |t| ==> IsSpace(t[i])
  }

  lemma AlnumKept(c: char)
    requires IsAlnum(c)
    ensures !IsRemovable(c) && !IsSpace(c)
  {
  }

  lemma {:induction false} DropSymbolsConcat(a: string, b: string)
    ensures DropSymbols(a + b) == DropSymbols(a) + DropSymbols(b)
  {
    if a == [] {
      assert a + b == b;
    } else {
      assert (a + b)[1..] == a[1..] + b;
      DropSymbolsConcat(a[1..], b);
    }
  }

  /** Letters and digits pass the symbol filter. */
  lemma {:induction false} DropSymbolsWord(t: string)
    requires AlnumWord(t)
    ensures DropSymbols(t) == t
  {
    forall i | 0 <= i < |t| ensures !IsRemovable(t[i]) { AlnumKept(t[i]); }
    DropSymbolsIdentity(t);
  }

  /** A text made only of characters of the class is deleted entirely. */
  lemma {:induction false} DropSymbolsAll(t: string)
    requires forall i :: 0 <= i < |t| ==> IsRemovable(t[i])
    ensures DropSymbols(t) == []
  {
    if t != [] {
      assert forall i :: 0 <= i < |t[1..]| ==> IsRemovable(t[1..][i]) by {
        assert forall i :: 0 <= i < |t[1..]| ==> t[1..][i] == t[i + 1];
      }
      DropSymbolsAll(t[1..]);
    }
  }

  lemma {:induction false} DropSpacesRun(w: string, t: string)
    requires SpaceRun(w)
    requires t == [] || !IsSpace(t[0])
    ensures DropSpaces(w + t) == t
  {
    if w == [] {
      assert w + t == t;
    } else {
      assert (w + t)[1..] == w[1..] + t;
      assert SpaceRun(w[1..]) by { assert forall i :: 0 <= i < |w[1..]| ==> w[1..][i] == w[i + 1]; }
      DropSpacesRun(w[1..], t);
    }
  }

  /** No whitespace anywhere in `a`. */
  predicate NoSpace(a: string) {
    forall i :: 0 <= i < |a| ==> !IsSpace(a[i])
  }

  lemma NoSpaceTail(a: string)
    requires a != [] && NoSpace(a)
    ensures !IsSpace(a[0]) && NoSpace(a[1..])
  {
    assert forall i :: 0 <= i < |a[1..]| ==> a[1..][i] == a[i + 1];
  }

  lemma ConsSplit(a: string, t: string)
    requires a != []
    ensures a + t == [a[0]] + (a[1..] + t)
    ensures a + Collapse(t) == [a[0]] + (a[1..] + Collapse(t))
  {
  }

  /** A run of non-whitespace passes the collapse unchanged. */
  lemma {:induction false} CollapseWord(a: string, t: string)
    requires NoSpace(a)
    ensures Collapse(a + t) == a + Collapse(t)
  {
    if a == [] {
      assert a + t == t;
    } else {
      NoSpaceTail(a);
      CollapseWord(a[1..], t);
      CollapseKeep(a[0], a[1..] + t);
      ConsSplit(a, t);
    }
  }

  /** A non-whitespace character heading the text is kept as it is. */
  lemma CollapseKeep(x: char, r: string)
    requires !IsSpace(x)
    ensures Collapse([x] + r) == [x] + Collapse(r)
  {
    assert ([x] + r)[0] == x && ([x] + r)[1..] == r;
  }

  /** A whole run of whitespace becomes one space. */
  lemma CollapseGap(w: string, t: string)
    requires w != [] && SpaceRun(w)
    requires t == [] || !IsSpace(t[0])
    ensures Collapse(w + t) == " " + Collapse(t)
  {
    assert (w + t)[0] == w[0];
    assert (w + t)[1..] == w[1..] + t;
    assert SpaceRun(w[1..]) by { assert forall i :: 0 <= i < |w[1..]| ==> w[1..][i] == w[i + 1]; }
    DropSpacesRun(w[1..], t);
  }

  /** Two words of letters and digits joined by one space form a clean text. */
  lemma WordsClean(x: string, y: string)
    requires x != [] && y != [] && AlnumWord(x) && AlnumWord(y)
    ensures Clean(x + " " + y)
  {
    var t := x + " " + y;
    forall i | 0 <= i < |t| ensures (IsAlnum(t[i]) || t[i] == ' ') && !IsRemovable(t[i]) {
      if i < |x| { assert t[i] == x[i]; } else if i > |x| { assert t[i] == y[i - |x| - 1]; }
    }
    forall i | 0 < i < |t| ensures !(IsSpace(t[i - 1]) && IsSpace(t[i])) {
      if i <= |x| { assert t[i - 1] == x[i - 1]; AlnumKept(x[i - 1]); }
      else { assert t[i] == y[i - |x| - 1]; AlnumKept(y[i - |x| - 1]); }
    }
    AlnumKept(x[0]);
    AlnumKept(y[|y| - 1]);
    assert t[0] == x[0] && t[|t| - 1] == y[|y| - 1];
  }

  /** A non-empty word of letters and digits is left as it is. */
  lemma SanitizeWord(w: string)
    requires w != [] && AlnumWord(w)
    ensures Sanitize(w) == w
  {
    forall i | 0 <= i < |w| ensures !IsRemovable(w[i]) && !IsSpace(w[i]) { AlnumKept(w[i]); }
    CleanFixedPoint(w);
  }

  /** One character is deleted exactly when it is in the class. */
  lemma DropSymbolsChar(c: char)
    ensures DropSymbols([c]) == if IsRemovable(c) then [] else [c]
  {
    assert [c][1..] == [];
  }

  /** A word followed by one character of the class loses that character. */
  lemma SanitizeTrailingSymbol(w: string, s: char)
    requires w != [] && AlnumWord(w) && IsRemovable(s)
    ensures Sanitize(w + [s]) == w
  {
    DropSymbolsWord(w);
    DropSymbolsConcat(w, [s]);
    DropSymbolsChar(s);
    assert w + [] == w;
    SanitizeWord(w);
    calc {
      Sanitize(w + [s]);
      Strip(Collapse(DropSymbols(w + [s])));
      Strip(Collapse(w));
      Sanitize(w);
    }
  }

  /**
   * A character of the class standing alone between two spaces goes, and the two
   * spaces it leaves behind become one.
   */
  lemma SanitizeLoneSymbol(a: string, s: char, b: string)
    requires a != [] && AlnumWord(a) && IsRemovable(s)
    requires b != [] && Clean(b)
    ensures Sanitize(a + [' ', s, ' '] + b) == a + " " + b
  {
    DropLoneSymbol(a, s, b);
    CollapseLoneGap(a, b);
    AlnumKept(a[0]);
    var r := a + ([' '] + b);
    assert r[0] == a[0] && r[|r| - 1] == b[|b| - 1];
    StripIdentity(r);
    assert r == a + " " + b;
  }

  lemma DropLoneSymbol(a: string, s: char, b: string)
    requires AlnumWord(a) && IsRemovable(s) && NoSymbols(b)
    ensures DropSymbols(a + [' ', s, ' '] + b) == a + ([' ', ' '] + b)
  {
    var g := [' ', s, ' '];
    DropSpacedSymbol(s);
    DropSymbolsWord(a);
    DropSymbolsIdentity(b);
    DropSymbolsConcat(a, g);
    DropSymbolsConcat(a + g, b);
    assert (a + [' ', ' ']) + b == a + ([' ', ' '] + b);
  }

  lemma DropSpacedSymbol(s: char)
    requires IsRemovable(s)
    ensures DropSymbols([' ', s, ' ']) == [' ', ' ']
  {
    DropSymbolsChar(' ');
    DropSymbolsChar(s);
    DropSymbolsConcat([' '], [s] + [' ']);
    DropSymbolsConcat([s], [' ']);
    assert [' ', s, ' '] == [' '] + ([s] + [' ']);
  }

  lemma CollapseLoneGap(a: string, b: string)
    requires AlnumWord(a) && b != [] && Clean(b)
    ensures Collapse(a + ([' ', ' '] + b)) == a + ([' '] + b)
  {
    AlnumNoSpace(a);
    CollapseWord(a, [' ', ' '] + b);
    CollapseDoubleSpace(b);
  }

  lemma AlnumNoSpace(a: string)
    requires AlnumWord(a)
    ensures NoSpace(a)
  {
    forall i | 0 <= i < |a| ensures !IsSpace(a[i]) { AlnumKept(a[i]); }
  }

  lemma CollapseDoubleSpace(b: string)
    requires b != [] && Clean(b)
    ensures Collapse([' ', ' '] + b) == " " + b
  {
    var gap: string := [' ', ' '];
    assert SpaceRun(gap);
    assert !IsSpace(b[0]);
    CollapseGap(gap, b);
    CollapseIdentity(b);
  }

  // ---------------------------------------------------------------------------
  // dedup_acronyms

  /** The distinct non-empty entries of the five vendor lists: the set `dedup_acronyms` sanitises. */
  function VendorWords(m: Model): (r: set<string>)
    ensures "" !in r
  {
    (set w | w in m.siemens + m.ge + m.philips + m.canon + m.hitachi) - {""}
  }

  /** How many words of `ws` the rewrite `f` sends to `x`. */
  function CountMapped(ws: set<string>, f: string -> string, x: string): nat {
    |set w | w in ws && f(w) == x|
  }

  lemma CountAdd(ws: set<string>, f: string -> string, w: string)
    requires w !in ws
    ensures forall x :: CountMapped(ws + {w}, f, x) == CountMapped(ws, f, x) + (if f(w) == x then 1 else 0)
  {
    forall x ensures CountMapped(ws + {w}, f, x) == CountMapped(ws, f, x) + (if f(w) == x then 1 else 0) {
      var a := set v | v in ws && f(v) == x;
      var b := set v | v in ws + {w} && f(v) == x;
      if f(w) == x {
        assert b == a + {w};
      } else {
        assert b == a;
      }
    }
  }

  /**
   * The ascending arrangement of the images under `f` of the words of `ws`, one per
   * word. The order in which the set is visited does not matter, as `SortedUnique` shows.
   */
  ghost function SortedImage(ws: set<string>, f: string -> string): (r: seq<string>)
    ensures Sorted(r)
    ensures |r| == |ws|
    ensures forall x :: multiset(r)[x] == CountMapped(ws, f, x)
    decreases ws
  {
    if ws == {} then []
    else
      var w :| w in ws;
      var rest := SortedImage(ws - {w}, f);
      CountAdd(ws - {w}, f, w);
      assert ws - {w} + {w} == ws;
      assert |ws - {w}| == |ws| - 1;
      InsertSorted(rest, f(w))
  }

  /** What `dedup_acronyms(model)` returns. */
  ghost function Dedup(m: Model): (r: seq<string>)
    ensures Sorted(r)
    ensures |r| == |VendorWords(m)|
  {
    SortedImage(VendorWords(m), Sanitize)
  }

  /**
   * `dedup_acronyms`: the set union of the five vendor lists, less `""`, each word
   * sanitised and the results sorted. Nothing is lower-cased.
   */
  method DedupAcronyms(m: Model) returns (r: seq<string>)
    ensures Sorted(r)
    ensures forall x :: multiset(r)[x] == CountMapped(VendorWords(m), Sanitize, x)
    ensures r == Dedup(m)
  {
    var unique: set<string> := {};
    unique := unique + set w | w in m.siemens;
    unique := unique + set w | w in m.ge;
    unique := unique + set w | w in m.philips;
    unique := unique + set w | w in m.canon;
    unique := unique + set w | w in m.hitachi;
    if "" in unique {
      unique := unique - {""};
    }
    assert unique == VendorWords(m);
    r := SortImage(unique, Sanitize);
  }

  /** `sorted(f(word) for word in words)` (with `f` the `sanitize` of `dedup_acronyms`), one insertion per word, in any order of the set. */
  method SortImage(words: set<string>, f: string -> string) returns (r: seq<string>)
    ensures Sorted(r)
    ensures forall x :: multiset(r)[x] == CountMapped(words, f, x)
    ensures r == SortedImage(words, f)
  {
    r := [];
    var rest := words;
    ghost var done: set<string> := {};
    while rest != {}
      invariant rest !! done && rest + done == words
      invariant Sorted(r)
      invariant forall x :: multiset(r)[x] == CountMapped(done, f, x)
      decreases rest
    {
      var w :| w in rest;
      var t := InsertSorted(r, f(w));
      CountsAfterInsert(r, t, done, w, f);
      r := t;
      rest := rest - {w};
      done := done + {w};
    }
    assert done == words;
    OneArrangement(r, words, f);
  }

  /** Inserting the image of one more word keeps the counts in step with the words done. */
  lemma CountsAfterInsert(r: seq<string>, t: seq<string>, done: set<string>, w: string, f: string -> string)
    requires w !in done
    requires multiset(t) == multiset(r) + multiset{f(w)}
    requires forall x :: multiset(r)[x] == CountMapped(done, f, x)
    ensures forall x :: multiset(t)[x] == CountMapped(done + {w}, f, x)
  {
    CountAdd(done, f, w);
  }

  /** Any sorted sequence with the counts of `SortedImage` is `SortedImage`. */
  lemma OneArrangement(r: seq<string>, ws: set<string>, f: string -> string)
    requires Sorted(r)
    requires forall x :: multiset(r)[x] == CountMapped(ws, f, x)
    ensures r == SortedImage(ws, f)
  {
    var s := SortedImage(ws, f);
    assert multiset(r) == multiset(s) by {
      forall x ensures multiset(r)[x] == multiset(s)[x] { }
    }
    SortedUnique(r, s);
  }

  lemma ImageElements(ws: set<string>, f: string -> string)
    ensures forall i :: 0 <= i < |SortedImage(ws, f)| ==> exists w :: w in ws && f(w) == SortedImage(ws, f)[i]
  {
    var r := SortedImage(ws, f);
    forall i | 0 <= i < |r| ensures exists w :: w in ws && f(w) == r[i] {
      var x := r[i];
      assert multiset(r)[x] > 0;
      var hits := set w | w in ws && f(w) == x;
      assert |hits| == CountMapped(ws, f, x);
      var w :| w in hits;
    }
  }

  lemma ImageOfFixedPoints(ws: set<string>, f: string -> string)
    requires forall w :: w in ws ==> f(w) == w
    ensures multiset(SortedImage(ws, f)) == multiset(ws)
  {
    var r := SortedImage(ws, f);
    forall x ensures multiset(r)[x] == multiset(ws)[x] {
      var hits := set w | w in ws && f(w) == x;
      assert |hits| == CountMapped(ws, f, x);
      if x in ws {
        assert hits == {x};
      } else {
        assert hits == {};
      }
    }
  }

  /** Every element of the output is `sanitize` of a non-empty vendor entry, and there is one per distinct entry. */
  lemma DedupElements(m: Model)
    ensures |Dedup(m)| == |VendorWords(m)|
    ensures forall i :: 0 <= i < |Dedup(m)| ==>
      exists w :: w in VendorWords(m) && w != "" && Sanitize(w) == Dedup(m)[i]
  {
    ImageElements(VendorWords(m), Sanitize);
  }

  /** When every entry sanitises to itself, the output is the distinct entries, sorted: case is kept. */
  lemma DedupOfClean(m: Model)
    requires forall w :: w in VendorWords(m) ==> Sanitize(w) == w
    ensures Sorted(Dedup(m))
    ensures multiset(Dedup(m)) == multiset(VendorWords(m))
  {
    ImageOfFixedPoints(VendorWords(m), Sanitize);
  }

  /** The one ascending arrangement of two distinct words. */
  lemma SortedTwo(r: seq<string>, x: string, y: string)
    requires Sorted(r) && multiset(r) == multiset({x, y})
    requires x != y && LexLe(x, y)
    ensures r == [x, y]
  {
    assert multiset({x, y}) == multiset([x, y]) by {
      assert multiset([x, y]) == multiset{x, y};
    }
    assert Sorted([x, y]);
    SortedUnique(r, [x, y]);
  }

  /** The one arrangement of one word. */
  lemma SortedOne(r: seq<string>, x: string)
    requires multiset(r) == multiset({x})
    ensures r == [x]
  {
    assert multiset({x}) == multiset([x]);
    assert |r| == |multiset(r)| == 1;
    assert r[0] in multiset(r);
  }

  /** Words a rewrite leaves alone come out as themselves: one word gives itself. */
  lemma SortedImageOfOne(ws: set<string>, f: string -> string, x: string)
    requires ws == {x} && f(x) == x
    ensures SortedImage(ws, f) == [x]
  {
    ImageOfFixedPoints(ws, f);
    SortedOne(SortedImage(ws, f), x);
  }

  /** Two distinct words a rewrite leaves alone come out as themselves, in order. */
  lemma SortedImageOfTwo(ws: set<string>, f: string -> string, x: string, y: string)
    requires ws == {x, y} && x != y
    requires f(x) == x && f(y) == y
    requires LexLe(x, y)
    ensures SortedImage(ws, f) == [x, y]
  {
    assert forall w :: w in ws ==> f(w) == w;
    ImageOfFixedPoints(ws, f);
    SortedTwo(SortedImage(ws, f), x, y);
  }

  /** One word comes out as its image, whatever the image is. */
  lemma SortedImageOfSingle(ws: set<string>, f: string -> string, x: string)
    requires ws == {x}
    ensures SortedImage(ws, f) == [f(x)]
  {
    var r := SortedImage(ws, f);
    forall y ensures multiset(r)[y] == multiset({f(x)})[y] {
      var hits := set w | w in ws && f(w) == y;
      if y == f(x) { assert hits == ws; } else { assert hits == {}; }
    }
    assert multiset(r) == multiset({f(x)});
    SortedOne(r, f(x));
  }

  /** Two distinct words with the same image both come out: the image twice. */
  lemma SortedImageOfMerged(ws: set<string>, f: string -> string, x: string, y: string)
    requires ws == {x, y} && x != y && f(x) == f(y)
    ensures SortedImage(ws, f) == [f(x), f(x)]
  {
    var r, d := SortedImage(ws, f), [f(x), f(x)];
    forall z ensures multiset(r)[z] == multiset(d)[z] {
      var hits := set w | w in ws && f(w) == z;
      if z == f(x) { assert hits == ws; } else { assert hits == {}; }
    }
    assert multiset(r) == multiset(d);
    LexLeReflexive(f(x));
    SortedUnique(r, d);
  }

  /** One word of letters and digits, however many vendors list it, comes out once. */
  lemma DedupOfOne(m: Model, x: string)
    requires VendorWords(m) == {x}
    requires x != [] && AlnumWord(x)
    ensures Dedup(m) == [x]
  {
    SanitizeWord(x);
    SortedImageOfOne(VendorWords(m), Sanitize, x);
  }

  /** Two distinct words of letters and digits come out as themselves, in order, case kept. */
  lemma DedupOfTwo(m: Model, x: string, y: string)
    requires VendorWords(m) == {x, y} && x != y
    requires x != [] && AlnumWord(x) && y != [] && AlnumWord(y)
    requires LexLe(x, y)
    ensures Dedup(m) == [x, y]
  {
    SanitizeWord(x);
    SanitizeWord(y);
    SortedImageOfTwo(VendorWords(m), Sanitize, x, y);
  }

  /** A model whose one entry sanitises to `z` gives `[z]`, even when `z` is the empty string. */
  lemma DedupOfSanitisedOne(m: Model, x: string, z: string)
    requires VendorWords(m) == {x} && Sanitize(x) == z
    ensures Dedup(m) == [z]
  {
    SortedImageOfSingle(VendorWords(m), Sanitize, x);
  }

  /** Two distinct entries that sanitise to the same `z` give `[z, z]`: a duplicate. */
  lemma DedupOfSanitisedPair(m: Model, x: string, y: string, z: string)
    requires VendorWords(m) == {x, y} && x != y
    requires Sanitize(x) == z && Sanitize(y) == z
    ensures Dedup(m) == [z, z]
  {
    SortedImageOfMerged(VendorWords(m), Sanitize, x, y);
  }

  /** A word listed both bare and with a trailing symbol comes out twice. */
  lemma DedupOfTrailingSymbol(m: Model, w: string, s: char)
    requires VendorWords(m) == {w + [s], w}
    requires w != [] && AlnumWord(w) && IsRemovable(s)
    ensures Dedup(m) == [w, w]
  {
    SanitizeTrailingSymbol(w, s);
    SanitizeWord(w);
    assert |w + [s]| != |w|;
    DedupOfSanitisedPair(m, w + [s], w, w);
  }

  // ---------------------------------------------------------------------------
  // check_for_duplicate_categories, check_for_duplicate_acronyms

  /** One insertion into a dictionary of lists: a new key gets `[v]`, a known one has `v` appended. */
  function Record(index: map<string, seq<string>>, k: string, v: string): map<string, seq<string>> {
    if k !in index then index[k := [v]] else index[k := index[k] + [v]]
  }

  /** One insertion adds `k` to the keys, appends `v` to its list and leaves every other key alone. */
  lemma RecordFacts(index: map<string, seq<string>>, k: string, v: string)
    ensures Record(index, k, v).Keys == index.Keys + {k}
    ensures Record(index, k, v)[k] == (if k in index then index[k] else []) + [v]
    ensures forall j :: j in index && j != k ==> Record(index, k, v)[j] == index[j]
  {
  }

  /** The dictionary the insertions of the pairs `ps`, in order, build from `{}`. */
  function IndexOf(ps: seq<(string, string)>): (r: map<string, seq<string>>)
    ensures forall k :: k in r ==> r[k] != []
  {
    if ps == [] then map[] else Record(IndexOf(ps[..|ps| - 1]), ps[|ps| - 1].0, ps[|ps| - 1].1)
  }

  /** The values paired with `k` in `ps`, in order. */
  function Occurrences(ps: seq<(string, string)>, k: string): seq<string> {
    if ps == [] then []
    else Occurrences(ps[..|ps| - 1], k) + (if ps[|ps| - 1].0 == k then [ps[|ps| - 1].1] else [])
  }

  /** The keys whose list has more than one element: the ones `log.error` reports. */
  function Flagged(index: map<string, seq<string>>): (r: set<string>)
    ensures r <= index.Keys
  {
    set k | k in index && |index[k]| > 1
  }

  lemma IndexOfSnoc(ps: seq<(string, string)>, k: string, v: string)
    ensures IndexOf(ps + [(k, v)]) == Record(IndexOf(ps), k, v)
  {
    assert (ps + [(k, v)])[..|ps|] == ps;
  }

  /** The dictionary holds, for each key, exactly the values paired with it, in order. */
  lemma {:induction false} IndexOfOccurrences(ps: seq<(string, string)>)
    ensures forall k :: k in IndexOf(ps) <==> Occurrences(ps, k) != []
    ensures forall k :: k in IndexOf(ps) ==> IndexOf(ps)[k] == Occurrences(ps, k)
  {
    if ps != [] {
      IndexOfOccurrences(ps[..|ps| - 1]);
    }
  }

  /** A key has more than one value exactly when it is paired twice. */
  lemma {:induction false} OccurrencesTwice(ps: seq<(string, string)>, k: string)
    ensures Occurrences(ps, k) != [] <==> exists i :: 0 <= i < |ps| && ps[i].0 == k
    ensures |Occurrences(ps, k)| > 1 <==> exists i, j :: 0 <= i < j < |ps| && ps[i].0 == k && ps[j].0 == k
  {
    if ps != [] {
      var n := |ps| - 1;
      var init := ps[..n];
      OccurrencesTwice(init, k);
      assert forall i :: 0 <= i < n ==> init[i] == ps[i];
      if ps[n].0 == k && Occurrences(init, k) != [] {
        var i :| 0 <= i < n && init[i].0 == k;
        assert ps[i].0 == k && ps[n].0 == k;
      }
      if exists i, j :: 0 <= i < j < |ps| && ps[i].0 == k && ps[j].0 == k {
        var i, j :| 0 <= i < j < |ps| && ps[i].0 == k && ps[j].0 == k;
        if j < n {
          assert init[i].0 == k && init[j].0 == k;
        } else {
          assert init[i].0 == k;
        }
      }
    }
  }

  /** The keys flagged are exactly those paired more than once. */
  lemma FlaggedIff(ps: seq<(string, string)>, k: string)
    ensures k in Flagged(IndexOf(ps)) <==> exists i, j :: 0 <= i < j < |ps| && ps[i].0 == k && ps[j].0 == k
  {
    IndexOfOccurrences(ps);
    OccurrencesTwice(ps, k);
  }

  /** `(model.name, category.name)` for each entry, as `check_for_duplicate_categories` records them. */
  function NameCategoryPairs(es: seq<(PulseSequenceCategory, Model)>): (r: seq<(string, string)>)
    ensures |r| == |es|
    ensures forall i :: 0 <= i < |es| ==> r[i] == (es[i].1.name, Name(es[i].0))
  {
    seq(|es|, i requires 0 <= i < |es| => (es[i].1.name, Name(es[i].0)))
  }

  lemma NameIndexStep(done: seq<(PulseSequenceCategory, Model)>, c: PulseSequenceCategory, m: Model)
    ensures IndexOf(NameCategoryPairs(done + [(c, m)])) == Record(IndexOf(NameCategoryPairs(done)), m.name, Name(c))
  {
    NameCategoryPairsSnoc(done, c, m);
    IndexOfSnoc(NameCategoryPairs(done), m.name, Name(c));
  }

  lemma CategoryEntriesPrefix(ds: Dataset, c: PulseSequenceCategory, j: nat)
    requires j < |Acronyms(ds, c)|
    ensures CategoryEntries(ds, c)[..j + 1] == CategoryEntries(ds, c)[..j] + [(c, Acronyms(ds, c)[j])]
  {
  }

  lemma NameCategoryPairsSnoc(es: seq<(PulseSequenceCategory, Model)>, c: PulseSequenceCategory, m: Model)
    ensures NameCategoryPairs(es + [(c, m)]) == NameCategoryPairs(es) + [(m.name, Name(c))]
  {
  }

  /** What the model-name dictionary over `es` holds, and which names it flags. */
  lemma NameIndexFacts(es: seq<(PulseSequenceCategory, Model)>)
    ensures forall name :: name in IndexOf(NameCategoryPairs(es)) <==> exists e :: e in es && e.1.name == name
    ensures forall name :: name in Flagged(IndexOf(NameCategoryPairs(es))) <==>
      exists i, j :: 0 <= i < j < |es| && es[i].1.name == name && es[j].1.name == name
  {
    var ps := NameCategoryPairs(es);
    IndexOfOccurrences(ps);
    forall name ensures name in IndexOf(ps) <==> exists e :: e in es && e.1.name == name {
      OccurrencesTwice(ps, name);
      if name in IndexOf(ps) {
        var k :| 0 <= k < |ps| && ps[k].0 == name;
        assert es[k] in es;
      }
      if exists e :: e in es && e.1.name == name {
        var e :| e in es && e.1.name == name;
        var k :| 0 <= k < |es| && es[k] == e;
        assert ps[k].0 == name;
      }
    }
    forall name ensures name in Flagged(IndexOf(ps)) <==>
      exists i, j :: 0 <= i < j < |es| && es[i].1.name == name && es[j].1.name == name
    {
      FlaggedIff(ps, name);
    }
  }

  /**
   * `check_for_duplicate_categories`: the model-name dictionary over all categories in
   * enum order, and the names it reports. The curated tables are read, never changed.
   */
  method CheckForDuplicateCategories(ds: Dataset) returns (index: map<string, seq<string>>, flagged: set<string>)
    ensures index == IndexOf(NameCategoryPairs(Entries(ds)))
    ensures flagged == Flagged(index)
    ensures forall name :: name in index <==> exists e :: e in Entries(ds) && e.1.name == name
    ensures forall name :: name in flagged <==>
      exists i, j :: 0 <= i < j < |Entries(ds)| && Entries(ds)[i].1.name == name && Entries(ds)[j].1.name == name
  {
    index := IndexModelNames(ds, AllCategories);
    flagged := set k | k in index && |index[k]| > 1;
    assert flagged == Flagged(index);
    NameIndexFacts(Entries(ds));
  }

  /** The outer loop of `check_for_duplicate_categories`, over the categories `cs` in order. */
  method IndexModelNames(ds: Dataset, cs: seq<PulseSequenceCategory>) returns (index: map<string, seq<string>>)
    ensures index == IndexOf(NameCategoryPairs(EntriesOf(ds, cs)))
  {
    index := map[];
    var i := 0;
    while i < |cs|
      invariant 0 <= i <= |cs|
      invariant index == IndexOf(NameCategoryPairs(EntriesOf(ds, cs[..i])))
    {
      index := IndexCategoryNames(ds, cs[i], EntriesOf(ds, cs[..i]), index);
      EntriesOfSnoc(ds, cs, i);
      i := i + 1;
    }
    assert cs[..i] == cs;
  }

  /** The inner loop: record the category of each model of `c`, after the entries `done0`. */
  method IndexCategoryNames(ds: Dataset, c: PulseSequenceCategory, ghost done0: seq<(PulseSequenceCategory, Model)>,
                            index0: map<string, seq<string>>)
    returns (index: map<string, seq<string>>)
    requires index0 == IndexOf(NameCategoryPairs(done0))
    ensures index == IndexOf(NameCategoryPairs(done0 + CategoryEntries(ds, c)))
  {
    index := index0;
    ghost var done := done0;
    var models := Acronyms(ds, c);
    var j := 0;
    while j < |models|
      invariant 0 <= j <= |models|
      invariant done == done0 + CategoryEntries(ds, c)[..j]
      invariant index == IndexOf(NameCategoryPairs(done))
    {
      var model := models[j];
      NameIndexStep(done, c, model);
      if model.name !in index {
        index := index[model.name := [Name(c)]];
      } else {
        index := index[model.name := index[model.name] + [Name(c)]];
      }
      CategoryEntriesPrefix(ds, c, j);
      done := done + [(c, model)];
      j := j + 1;
    }
    assert CategoryEntries(ds, c)[..j] == CategoryEntries(ds, c);
  }

  /** `f"{category.name}.{model.name}"`, the label `check_for_duplicate_acronyms` records. */
  function EntryLabel(c: PulseSequenceCategory, m: Model): (r: string)
    ensures |r| == |Name(c)| + 1 + |m.name|
    ensures r[|Name(c)|] == '.' && r[..|Name(c)|] == Name(c) && r[|Name(c)| + 1..] == m.name
  {
    Name(c) + "." + m.name
  }

  /** `(acronym, label)` for each acronym of `acronyms`, the list one entry contributes, in order. */
  function ModelAcronymPairs(c: PulseSequenceCategory, m: Model, acronyms: seq<string>): (r: seq<(string, string)>)
    ensures |r| == |acronyms|
    ensures forall k :: 0 <= k < |r| ==> r[k] == (acronyms[k], EntryLabel(c, m))
  {
    seq(|acronyms|, k requires 0 <= k < |acronyms| => (acronyms[k], EntryLabel(c, m)))
  }

  /**
   * The pairs `check_for_duplicate_acronyms` records over the entries `es`, in order,
   * where `acronymsOf` gives each model's acronym list (the model uses `Dedup`).
   */
  function AcronymPairs(es: seq<(PulseSequenceCategory, Model)>, acronymsOf: Model -> seq<string>): seq<(string, string)> {
    if es == [] then []
    else
      var e := es[|es| - 1];
      AcronymPairs(es[..|es| - 1], acronymsOf) + ModelAcronymPairs(e.0, e.1, acronymsOf(e.1))
  }

  lemma AcronymPairsSnoc(es: seq<(PulseSequenceCategory, Model)>, acronymsOf: Model -> seq<string>, c: PulseSequenceCategory, m: Model)
    ensures AcronymPairs(es + [(c, m)], acronymsOf) == AcronymPairs(es, acronymsOf) + ModelAcronymPairs(c, m, acronymsOf(m))
  {
    assert (es + [(c, m)])[..|es|] == es;
  }

  lemma ModelAcronymPairsMember(c: PulseSequenceCategory, m: Model, acronyms: seq<string>, a: string, key: string)
    ensures (a, key) in ModelAcronymPairs(c, m, acronyms) <==> a in acronyms && key == EntryLabel(c, m)
  {
    var r := ModelAcronymPairs(c, m, acronyms);
    if a in acronyms && key == EntryLabel(c, m) {
      var k :| 0 <= k < |acronyms| && acronyms[k] == a;
      assert r[k] == (a, key);
    }
  }

  /** Every recorded pair comes from an entry whose list holds the acronym, under that entry's label. */
  lemma {:induction false} AcronymPairsSource(es: seq<(PulseSequenceCategory, Model)>, acronymsOf: Model -> seq<string>, a: string, key: string)
    returns (e: (PulseSequenceCategory, Model))
    requires (a, key) in AcronymPairs(es, acronymsOf)
    ensures e in es && a in acronymsOf(e.1) && key == EntryLabel(e.0, e.1)
  {
    var init, last := es[..|es| - 1], es[|es| - 1];
    ModelAcronymPairsMember(last.0, last.1, acronymsOf(last.1), a, key);
    if (a, key) in ModelAcronymPairs(last.0, last.1, acronymsOf(last.1)) {
      e := last;
    } else {
      e := AcronymPairsSource(init, acronymsOf, a, key);
      assert init == es[..|es| - 1];
    }
  }

  /** Every acronym in the list of an entry is recorded under that entry's label. */
  lemma {:induction false} AcronymPairsComplete(es: seq<(PulseSequenceCategory, Model)>, acronymsOf: Model -> seq<string>, e: (PulseSequenceCategory, Model), a: string)
    requires e in es && a in acronymsOf(e.1)
    ensures (a, EntryLabel(e.0, e.1)) in AcronymPairs(es, acronymsOf)
  {
    var init, last := es[..|es| - 1], es[|es| - 1];
    assert es == init + [last];
    if e == last {
      ModelAcronymPairsMember(e.0, e.1, acronymsOf(e.1), a, EntryLabel(e.0, e.1));
    } else {
      AcronymPairsComplete(init, acronymsOf, e, a);
    }
  }

  /** A pair is recorded exactly when its acronym is in the list of an entry with that label. */
  lemma AcronymPairsMember(es: seq<(PulseSequenceCategory, Model)>, acronymsOf: Model -> seq<string>, a: string, key: string)
    ensures (a, key) in AcronymPairs(es, acronymsOf) <==>
      exists e :: e in es && a in acronymsOf(e.1) && key == EntryLabel(e.0, e.1)
  {
    if (a, key) in AcronymPairs(es, acronymsOf) {
      var e := AcronymPairsSource(es, acronymsOf, a, key);
    }
    if exists e :: e in es && a in acronymsOf(e.1) && key == EntryLabel(e.0, e.1) {
      var e :| e in es && a in acronymsOf(e.1) && key == EntryLabel(e.0, e.1);
      AcronymPairsComplete(es, acronymsOf, e, a);
    }
  }

  lemma AcronymIndexStep(ps: seq<(string, string)>, c: PulseSequenceCategory, m: Model, acronyms: seq<string>, k: nat)
    requires k < |acronyms|
    ensures IndexOf(ps + ModelAcronymPairs(c, m, acronyms)[..k + 1]) ==
      Record(IndexOf(ps + ModelAcronymPairs(c, m, acronyms)[..k]), acronyms[k], EntryLabel(c, m))
  {
    var q := ModelAcronymPairs(c, m, acronyms);
    assert q[..k + 1] == q[..k] + [q[k]];
    assert ps + q[..k + 1] == (ps + q[..k]) + [q[k]];
    IndexOfSnoc(ps + q[..k], acronyms[k], EntryLabel(c, m));
  }

  /**
   * `check_for_duplicate_acronyms`: the acronym dictionary over every entry's
   * deduplicated acronyms, and the acronyms it reports, those recorded twice or more.
   */
  method CheckForDuplicateAcronyms(ds: Dataset) returns (index: map<string, seq<string>>, flagged: set<string>)
    ensures index == IndexOf(AcronymPairs(Entries(ds), Dedup))
    ensures flagged == Flagged(index)
    ensures forall a :: a in flagged <==>
      exists i, j :: 0 <= i < j < |AcronymPairs(Entries(ds), Dedup)|
        && AcronymPairs(Entries(ds), Dedup)[i].0 == a && AcronymPairs(Entries(ds), Dedup)[j].0 == a
  {
    index := IndexAcronyms(ds, AllCategories);
    flagged := set k | k in index && |index[k]| > 1;
    assert flagged == Flagged(index);
    forall a ensures a in flagged <==>
      exists i, j :: 0 <= i < j < |AcronymPairs(Entries(ds), Dedup)|
        && AcronymPairs(Entries(ds), Dedup)[i].0 == a && AcronymPairs(Entries(ds), Dedup)[j].0 == a
    {
      FlaggedIff(AcronymPairs(Entries(ds), Dedup), a);
    }
  }

  /** The loops of `check_for_duplicate_acronyms` over the categories `cs` in order. */
  method IndexAcronyms(ds: Dataset, cs: seq<PulseSequenceCategory>) returns (index: map<string, seq<string>>)
    ensures index == IndexOf(AcronymPairs(EntriesOf(ds, cs), Dedup))
  {
    index := map[];
    var i := 0;
    while i < |cs|
      invariant 0 <= i <= |cs|
      invariant index == IndexOf(AcronymPairs(EntriesOf(ds, cs[..i]), Dedup))
    {
      index := IndexCategoryAcronyms(ds, cs[i], AcronymPairs(EntriesOf(ds, cs[..i]), Dedup), index);
      EntriesOfSnoc(ds, cs, i);
      AcronymPairsCategory(EntriesOf(ds, cs[..i]), ds, cs[i]);
      i := i + 1;
    }
    assert cs[..i] == cs;
  }

  /** The loop over the models of one category `c`, after the pairs `ps0` already recorded. */
  method IndexCategoryAcronyms(ds: Dataset, c: PulseSequenceCategory, ghost ps0: seq<(string, string)>,
                               index0: map<string, seq<string>>)
    returns (index: map<string, seq<string>>)
    requires index0 == IndexOf(ps0)
    ensures index == IndexOf(ps0 + CategoryPairs(c, Acronyms(ds, c), Dedup))
  {
    index := index0;
    var models := Acronyms(ds, c);
    var j := 0;
    CategoryPairsStep(ps0, c, models, 0, Dedup);
    while j < |models|
      invariant 0 <= j <= |models|
      invariant index == IndexOf(ps0 + CategoryPairs(c, models[..j], Dedup))
    {
      var model := models[j];
      var acronyms := DedupAcronyms(model);
      CategoryPairsStep(ps0, c, models, j, Dedup);
      index := RecordAcronyms(index, ps0 + CategoryPairs(c, models[..j], Dedup), c, model, acronyms);
      j := j + 1;
    }
    assert models[..j] == models;
  }

  /** The pairs the models `ms` of category `c` contribute, in order. */
  function CategoryPairs(c: PulseSequenceCategory, ms: seq<Model>, acronymsOf: Model -> seq<string>): seq<(string, string)> {
    if ms == [] then []
    else CategoryPairs(c, ms[..|ms| - 1], acronymsOf) + ModelAcronymPairs(c, ms[|ms| - 1], acronymsOf(ms[|ms| - 1]))
  }

  /** The pairs after `ps0` and the first `j` models, and one model further. */
  lemma CategoryPairsStep(ps0: seq<(string, string)>, c: PulseSequenceCategory, ms: seq<Model>, j: nat, f: Model -> seq<string>)
    requires j <= |ms|
    ensures j == 0 ==> ps0 + CategoryPairs(c, ms[..j], f) == ps0
    ensures j < |ms| ==>
      ps0 + CategoryPairs(c, ms[..j + 1], f) == (ps0 + CategoryPairs(c, ms[..j], f)) + ModelAcronymPairs(c, ms[j], f(ms[j]))
  {
    if j == 0 {
      assert ms[..0] == [];
    }
    if j < |ms| {
      assert ms[..j + 1][..j] == ms[..j];
    }
  }

  /** The entries `(c, m)` for the models `ms`, in order. */
  function Tagged(c: PulseSequenceCategory, ms: seq<Model>): (r: seq<(PulseSequenceCategory, Model)>)
    ensures |r| == |ms|
    ensures forall k :: 0 <= k < |r| ==> r[k] == (c, ms[k])
  {
    seq(|ms|, k requires 0 <= k < |ms| => (c, ms[k]))
  }

  /** Appending the entries of one category appends that category's pairs. */
  lemma {:induction false} AcronymPairsTagged(es: seq<(PulseSequenceCategory, Model)>, c: PulseSequenceCategory, ms: seq<Model>, f: Model -> seq<string>)
    ensures AcronymPairs(es + Tagged(c, ms), f) == AcronymPairs(es, f) + CategoryPairs(c, ms, f)
  {
    if ms == [] {
      assert es + Tagged(c, ms) == es;
    } else {
      var init, m := ms[..|ms| - 1], ms[|ms| - 1];
      var last := ModelAcronymPairs(c, m, f(m));
      AcronymPairsTagged(es, c, init, f);
      TaggedSnoc(es, c, ms);
      AcronymPairsSnoc(es + Tagged(c, init), f, c, m);
      calc {
        AcronymPairs(es + Tagged(c, ms), f);
        AcronymPairs(es + Tagged(c, init), f) + last;
        (AcronymPairs(es, f) + CategoryPairs(c, init, f)) + last;
        AcronymPairs(es, f) + (CategoryPairs(c, init, f) + last);
        AcronymPairs(es, f) + CategoryPairs(c, ms, f);
      }
    }
  }

  lemma TaggedSnoc(es: seq<(PulseSequenceCategory, Model)>, c: PulseSequenceCategory, ms: seq<Model>)
    requires ms != []
    ensures es + Tagged(c, ms) == (es + Tagged(c, ms[..|ms| - 1])) + [(c, ms[|ms| - 1])]
  {
  }

  lemma AcronymPairsCategory(es: seq<(PulseSequenceCategory, Model)>, ds: Dataset, c: PulseSequenceCategory)
    ensures AcronymPairs(es + CategoryEntries(ds, c), Dedup) == AcronymPairs(es, Dedup) + CategoryPairs(c, Acronyms(ds, c), Dedup)
  {
    assert CategoryEntries(ds, c) == Tagged(c, Acronyms(ds, c));
    AcronymPairsTagged(es, c, Acronyms(ds, c), Dedup);
  }

  /** The innermost loop: record the entry's label under each acronym of its list. */
  method RecordAcronyms(index0: map<string, seq<string>>, ghost ps: seq<(string, string)>,
                        c: PulseSequenceCategory, model: Model, acronyms: seq<string>)
    returns (index: map<string, seq<string>>)
    requires index0 == IndexOf(ps)
    ensures index == IndexOf(ps + ModelAcronymPairs(c, model, acronyms))
  {
    index := index0;
    var k := 0;
    assert ModelAcronymPairs(c, model, acronyms)[..0] == [];
    assert ps + [] == ps;
    while k < |acronyms|
      invariant 0 <= k <= |acronyms|
      invariant index == IndexOf(ps + ModelAcronymPairs(c, model, acronyms)[..k])
    {
      var acronym := acronyms[k];
      var keyword := Name(c) + "." + model.name;
      AcronymIndexStep(ps, c, model, acronyms, k);
      if acronym !in index {
        index := index[acronym := [keyword]];
      } else {
        index := index[acronym := index[acronym] + [keyword]];
      }
      k := k + 1;
    }
    assert ModelAcronymPairs(c, model, acronyms)[..k] == ModelAcronymPairs(c, model, acronyms);
  }

  /**
   * `check_for_duplicates`: both detectors, names first. It only reports: what it
   * returns is the two sets of flagged keys, and the tables are not changed.
   */
  method CheckForDuplicates(ds: Dataset) returns (names: set<string>, acronyms: set<string>)
    ensures names == Flagged(IndexOf(NameCategoryPairs(Entries(ds))))
    ensures acronyms == Flagged(IndexOf(AcronymPairs(Entries(ds), Dedup)))
  {
    var nameIndex, acronymIndex;
    nameIndex, names := CheckForDuplicateCategories(ds);
    acronymIndex, acronyms := CheckForDuplicateAcronyms(ds);
  }
}
