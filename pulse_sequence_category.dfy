/**
 * src/mri_acronyms/models/pulse_sequence_category.py: the closed enumeration of
 * the nine categories, the concept table of each, and the case-insensitive
 * two-level lookup `get_model`.
 */
module Categories {
  import opened Wrappers
  import opened Text
  import opened Models

  /** `PulseSequenceCategory`, in declaration order. */
  datatype PulseSequenceCategory =
    | SpinEchoSequences
    | GradientEchoSequences
    | InversionRecoverySequences
    | EchoPlanarSequences
    | AngiographySequences
    | CardiacSequences
    | FunctionalSequences
    | SpectroscopySequences
    | ScannerParameters

  /** Iterating over the enumeration: its members in declaration order. */
  const AllCategories: seq<PulseSequenceCategory> := [
    SpinEchoSequences,
    GradientEchoSequences,
    InversionRecoverySequences,
    EchoPlanarSequences,
    AngiographySequences,
    CardiacSequences,
    FunctionalSequences,
    SpectroscopySequences,
    ScannerParameters
  ]

  /** The member's `.name`. */
  function Name(c: PulseSequenceCategory): string {
    match c
    case SpinEchoSequences => "SPIN_ECHO_SEQUENCES"
    case GradientEchoSequences => "GRADIENT_ECHO_SEQUENCES"
    case InversionRecoverySequences => "INVERSION_RECOVERY_SEQUENCES"
    case EchoPlanarSequences => "ECHO_PLANAR_SEQUENCES"
    case AngiographySequences => "ANGIOGRAPHY_SEQUENCES"
    case CardiacSequences => "CARDIAC_SEQUENCES"
    case FunctionalSequences => "FUNCTIONAL_SEQUENCES"
    case SpectroscopySequences => "SPECTROSCOPY_SEQUENCES"
    case ScannerParameters => "SCANNER_PARAMETERS"
  }

  /** The member's `.value`, the number `auto()` gave it; `order` returns it. */
  function Order(c: PulseSequenceCategory): (r: int)
    ensures 1 <= r <= 9
  {
    match c
    case SpinEchoSequences => 1
    case GradientEchoSequences => 2
    case InversionRecoverySequences => 3
    case EchoPlanarSequences => 4
    case AngiographySequences => 5
    case CardiacSequences => 6
    case FunctionalSequences => 7
    case SpectroscopySequences => 8
    case ScannerParameters => 9
  }

  /** `str(category)`, written out. */
  function Str(c: PulseSequenceCategory): (r: string)
    ensures |r| == |Name(c)|
  {
    match c
    case SpinEchoSequences => "spin_echo_sequences"
    case GradientEchoSequences => "gradient_echo_sequences"
    case InversionRecoverySequences => "inversion_recovery_sequences"
    case EchoPlanarSequences => "echo_planar_sequences"
    case AngiographySequences => "angiography_sequences"
    case CardiacSequences => "cardiac_sequences"
    case FunctionalSequences => "functional_sequences"
    case SpectroscopySequences => "spectroscopy_sequences"
    case ScannerParameters => "scanner_parameters"
  }

  /** There are nine members, each listed once, and `auto()` numbers them 1 to 9 in declaration order. */
  lemma OrderIsDeclarationPosition()
    ensures |AllCategories| == 9
    ensures forall c :: 1 <= Order(c) <= |AllCategories| && AllCategories[Order(c) - 1] == c
    ensures forall c :: c in AllCategories
    ensures forall i :: 0 <= i < |AllCategories| ==> Order(AllCategories[i]) == i + 1
  {
    forall c ensures 1 <= Order(c) <= |AllCategories| && AllCategories[Order(c) - 1] == c && c in AllCategories {
      match c
      case SpinEchoSequences => assert AllCategories[0] == c;
      case GradientEchoSequences => assert AllCategories[1] == c;
      case InversionRecoverySequences => assert AllCategories[2] == c;
      case EchoPlanarSequences => assert AllCategories[3] == c;
      case AngiographySequences => assert AllCategories[4] == c;
      case CardiacSequences => assert AllCategories[5] == c;
      case FunctionalSequences => assert AllCategories[6] == c;
      case SpectroscopySequences => assert AllCategories[7] == c;
      case ScannerParameters => assert AllCategories[8] == c;
    }
  }

  lemma OrderInjective(c1: PulseSequenceCategory, c2: PulseSequenceCategory)
    ensures Order(c1) == Order(c2) <==> c1 == c2
  {
  }

  /** `__str__` returns the member's name lower-cased. */
  lemma StrIsLowerName(c: PulseSequenceCategory)
    ensures Str(c) == Lower(Name(c))
  {
    match c
    case SpinEchoSequences => LowerLiteralSpinEcho();
    case GradientEchoSequences => LowerLiteralGradientEcho();
    case InversionRecoverySequences => LowerLiteralInversionRecovery();
    case EchoPlanarSequences => LowerLiteralEchoPlanar();
    case AngiographySequences => LowerLiteralAngiography();
    case CardiacSequences => LowerLiteralCardiac();
    case FunctionalSequences => LowerLiteralFunctional();
    case SpectroscopySequences => LowerLiteralSpectroscopy();
    case ScannerParameters => LowerLiteralScannerParameters();
  }

  // One lemma per member, so that each literal is lower-cased in a proof of its own.
  lemma LowerLiteralSpinEcho() ensures Lower("SPIN_ECHO_SEQUENCES") == "spin_echo_sequences" {}
  lemma LowerLiteralGradientEcho() ensures Lower("GRADIENT_ECHO_SEQUENCES") == "gradient_echo_sequences" {}
  lemma LowerLiteralInversionRecovery() ensures Lower("INVERSION_RECOVERY_SEQUENCES") == "inversion_recovery_sequences" {}
  lemma LowerLiteralEchoPlanar() ensures Lower("ECHO_PLANAR_SEQUENCES") == "echo_planar_sequences" {}
  lemma LowerLiteralAngiography() ensures Lower("ANGIOGRAPHY_SEQUENCES") == "angiography_sequences" {}
  lemma LowerLiteralCardiac() ensures Lower("CARDIAC_SEQUENCES") == "cardiac_sequences" {}
  lemma LowerLiteralFunctional() ensures Lower("FUNCTIONAL_SEQUENCES") == "functional_sequences" {}
  lemma LowerLiteralSpectroscopy() ensures Lower("SPECTROSCOPY_SEQUENCES") == "spectroscopy_sequences" {}
  lemma LowerLiteralScannerParameters() ensures Lower("SCANNER_PARAMETERS") == "scanner_parameters" {}

  /** `category.lower() == psc.name.lower()`: the test `get_model` applies to each member. */
  predicate NamesCategory(category: string, c: PulseSequenceCategory) {
    Lower(category) == Lower(Name(c))
  }

  /** No two members have names that agree ignoring case, so `get_model` matches at most one category. */
  lemma LowerNameInjective(category: string, c1: PulseSequenceCategory, c2: PulseSequenceCategory)
    requires NamesCategory(category, c1) && NamesCategory(category, c2)
    ensures c1 == c2
  {
    var n1, n2 := Name(c1), Name(c2);
    assert |n1| == |Lower(n1)| == |Lower(n2)| == |n2|;
    assert Lower(n1)[0] == LowerChar(n1[0]) && Lower(n2)[0] == LowerChar(n2[0]);
  }

  // ---------------------------------------------------------------------------
  // The concept tables

  /**
   * The nine curated tables of src/mri_acronyms/pulse_sequences/, one list per
   * module, in each module's declaration order.
   */
  datatype Dataset = Dataset(
    spinEcho: seq<Model>,
    gradientEcho: seq<Model>,
    inversionRecovery: seq<Model>,
    echoPlanar: seq<Model>,
    angiography: seq<Model>,
    cardiac: seq<Model>,
    functional: seq<Model>,
    spectroscopy: seq<Model>,
    scannerParameters: seq<Model>)

  /** The `acronyms` property: the table each member stands for. */
  function Acronyms(ds: Dataset, c: PulseSequenceCategory): seq<Model> {
    match c
    case SpinEchoSequences => ds.spinEcho
    case GradientEchoSequences => ds.gradientEcho
    case InversionRecoverySequences => ds.inversionRecovery
    case EchoPlanarSequences => ds.echoPlanar
    case AngiographySequences => ds.angiography
    case CardiacSequences => ds.cardiac
    case SpectroscopySequences => ds.spectroscopy
    case FunctionalSequences => ds.functional
    case ScannerParameters => ds.scannerParameters
  }

  /** The (category, model) pairs of one category, in declaration order. */
  function CategoryEntries(ds: Dataset, c: PulseSequenceCategory): (r: seq<(PulseSequenceCategory, Model)>)
    ensures |r| == |Acronyms(ds, c)|
    ensures forall k :: 0 <= k < |r| ==> r[k] == (c, Acronyms(ds, c)[k])
  {
    seq(|Acronyms(ds, c)|, k requires 0 <= k < |Acronyms(ds, c)| => (c, Acronyms(ds, c)[k]))
  }

  /** The pairs visited by `for category in cs: for model in category.acronyms`. */
  function EntriesOf(ds: Dataset, cs: seq<PulseSequenceCategory>): seq<(PulseSequenceCategory, Model)> {
    if cs == [] then [] else EntriesOf(ds, cs[..|cs| - 1]) + CategoryEntries(ds, cs[|cs| - 1])
  }

  /** Every (category, model) pair of the dataset, in enumeration order then declaration order. */
  function Entries(ds: Dataset): seq<(PulseSequenceCategory, Model)> {
    EntriesOf(ds, AllCategories)
  }

  lemma EntriesOfSnoc(ds: Dataset, cs: seq<PulseSequenceCategory>, i: nat)
    requires i < |cs|
    ensures EntriesOf(ds, cs[..i + 1]) == EntriesOf(ds, cs[..i]) + CategoryEntries(ds, cs[i])
  {
    assert cs[..i + 1][..i] == cs[..i];
  }

  /** The number of models over all nine tables. */
  function TotalModels(ds: Dataset): nat {
    |ds.spinEcho| + |ds.gradientEcho| + |ds.inversionRecovery| + |ds.echoPlanar| + |ds.angiography|
      + |ds.cardiac| + |ds.functional| + |ds.spectroscopy| + |ds.scannerParameters|
  }

  /** The scan visits each model of each table once: as many pairs as models. */
  lemma EntriesCount(ds: Dataset)
    ensures |Entries(ds)| == TotalModels(ds)
  {
    var cs := AllCategories;
    assert cs[..0] == [];
    EntriesOfSnoc(ds, cs, 0);
    EntriesOfSnoc(ds, cs, 1);
    EntriesOfSnoc(ds, cs, 2);
    EntriesOfSnoc(ds, cs, 3);
    EntriesOfSnoc(ds, cs, 4);
    EntriesOfSnoc(ds, cs, 5);
    EntriesOfSnoc(ds, cs, 6);
    EntriesOfSnoc(ds, cs, 7);
    EntriesOfSnoc(ds, cs, 8);
    assert cs[..9] == cs;
  }

  lemma {:induction false} EntriesOfMember(ds: Dataset, cs: seq<PulseSequenceCategory>, c: PulseSequenceCategory, m: Model)
    ensures (c, m) in EntriesOf(ds, cs) <==> c in cs && m in Acronyms(ds, c)
  {
    if cs != [] {
      var last := cs[|cs| - 1];
      EntriesOfMember(ds, cs[..|cs| - 1], c, m);
      assert cs == cs[..|cs| - 1] + [last];
      if (c, m) in CategoryEntries(ds, last) {
        var k :| 0 <= k < |CategoryEntries(ds, last)| && CategoryEntries(ds, last)[k] == (c, m);
        assert Acronyms(ds, c)[k] == m;
      }
      if c == last && m in Acronyms(ds, c) {
        var k :| 0 <= k < |Acronyms(ds, c)| && Acronyms(ds, c)[k] == m;
        assert CategoryEntries(ds, last)[k] == (c, m);
      }
    }
  }

  /** A pair is scanned exactly when the model is in that category's table. */
  lemma EntriesMember(ds: Dataset, c: PulseSequenceCategory, m: Model)
    ensures (c, m) in Entries(ds) <==> m in Acronyms(ds, c)
  {
    EntriesOfMember(ds, AllCategories, c, m);
  }

  // ---------------------------------------------------------------------------
  // get_model

  /** `name.lower() == model.name.lower()`: the test `get_model` applies to each model. */
  predicate HasName(m: Model, name: string) {
    Lower(m.name) == Lower(name)
  }

  /** The inner loop of `get_model`: the first model whose name equals `name` ignoring case. */
  function {:induction false} FindModel(models: seq<Model>, name: string): (r: Option<Model>)
    ensures r.None? <==> forall k :: 0 <= k < |models| ==> !HasName(models[k], name)
    ensures r.Some? ==>
      exists k :: 0 <= k < |models|
        && models[k] == r.value
        && HasName(r.value, name)
        && (forall j :: 0 <= j < k ==> !HasName(models[j], name))
  {
    if models == [] then None
    else if HasName(models[0], name) then Some(models[0])
    else
      var r := FindModel(models[1..], name);
      assert forall k :: 0 < k < |models| ==> models[k] == models[1..][k - 1];
      r
  }

  /** The outer loop of `get_model`, over the members `cs`, returning from the first hit. */
  function {:induction false} GetModelIn(ds: Dataset, cs: seq<PulseSequenceCategory>, category: string, name: string)
    : (r: Option<Model>)
    ensures r.Some? ==> HasName(r.value, name)
    ensures r.Some? ==>
      exists k :: 0 <= k < |cs| && NamesCategory(category, cs[k]) && r.value in Acronyms(ds, cs[k])
  {
    if cs == [] then None
    else if Hit(ds, cs[0], category, name) then FindModel(Acronyms(ds, cs[0]), name)
    else
      var r := GetModelIn(ds, cs[1..], category, name);
      assert forall k :: 0 <= k < |cs| - 1 ==> cs[1..][k] == cs[k + 1];
      r
  }

  /** Member `c` holds the model `get_model` looks for: its name matches and its table has the name. */
  predicate Hit(ds: Dataset, c: PulseSequenceCategory, category: string, name: string) {
    NamesCategory(category, c) && FindModel(Acronyms(ds, c), name).Some?
  }

  /** The outer loop finds nothing when no member of `cs` holds the model. */
  lemma {:induction false} GetModelInNoHit(ds: Dataset, cs: seq<PulseSequenceCategory>, category: string, name: string)
    requires forall j :: 0 <= j < |cs| ==> !Hit(ds, cs[j], category, name)
    ensures GetModelIn(ds, cs, category, name) == None
  {
    if cs != [] {
      assert forall j :: 0 <= j < |cs| - 1 ==> cs[1..][j] == cs[j + 1];
      GetModelInNoHit(ds, cs[1..], category, name);
    }
  }

  /**
   * When `c` is the only member of `cs` whose name matches, the outer loop is the
   * search of `c`'s table alone.
   */
  lemma {:induction false} GetModelInOnly(ds: Dataset, cs: seq<PulseSequenceCategory>, c: PulseSequenceCategory, category: string, name: string)
    requires c in cs && NamesCategory(category, c)
    requires forall j :: 0 <= j < |cs| && NamesCategory(category, cs[j]) ==> cs[j] == c
    ensures GetModelIn(ds, cs, category, name) == FindModel(Acronyms(ds, c), name)
  {
    var rest := cs[1..];
    assert forall j :: 0 <= j < |rest| ==> rest[j] == cs[j + 1];
    if Hit(ds, cs[0], category, name) {
      assert cs[0] == c;
    } else if cs[0] == c {
      assert forall j :: 0 <= j < |rest| ==> !Hit(ds, rest[j], category, name);
      GetModelInNoHit(ds, rest, category, name);
    } else {
      assert c in rest;
      GetModelInOnly(ds, rest, c, category, name);
    }
  }

  /** With the category matched, the outer loop is the search of that category's table alone. */
  lemma GetModelInOfCategory(ds: Dataset, c: PulseSequenceCategory, category: string, name: string)
    requires NamesCategory(category, c)
    ensures GetModelIn(ds, AllCategories, category, name) == FindModel(Acronyms(ds, c), name)
  {
    OrderIsDeclarationPosition();
    var cs := AllCategories;
    forall j | 0 <= j < |cs| && NamesCategory(category, cs[j]) ensures cs[j] == c {
      LowerNameInjective(category, cs[j], c);
    }
    GetModelInOnly(ds, cs, c, category, name);
  }

  lemma GetModelInSpec(ds: Dataset, category: string, name: string)
    ensures var r := GetModelIn(ds, AllCategories, category, name);
      && (r.None? <==> forall c, m :: NamesCategory(category, c) && m in Acronyms(ds, c) ==> !HasName(m, name))
      && (r.Some? ==>
        exists c, k :: NamesCategory(category, c) && 0 <= k < |Acronyms(ds, c)|
          && Acronyms(ds, c)[k] == r.value
          && HasName(r.value, name)
          && (forall j :: 0 <= j < k ==> !HasName(Acronyms(ds, c)[j], name)))
  {
    if c :| NamesCategory(category, c) {
      GetModelInOfCategory(ds, c, category, name);
      forall c' | NamesCategory(category, c') ensures c' == c { LowerNameInjective(category, c', c); }
      var r := FindModel(Acronyms(ds, c), name);
      if r.None? {
        forall c', m | NamesCategory(category, c') && m in Acronyms(ds, c') ensures !HasName(m, name) {
          assert c' == c;
        }
      }
    } else {
      GetModelInNoHit(ds, AllCategories, category, name);
    }
  }

  /**
   * `PulseSequenceCategory.get_model`: the category is matched by name and the
   * model by name, both ignoring case. The result is `None` when no category
   * matches, or when the matching category has no model of that name; otherwise it
   * is the first such model, in the category's declaration order.
   */
  function GetModel(ds: Dataset, category: string, name: string): (r: Option<Model>)
    ensures r.None? <==>
      forall c, m :: NamesCategory(category, c) && m in Acronyms(ds, c) ==> !HasName(m, name)
    ensures r.Some? ==>
      exists c, k :: NamesCategory(category, c) && 0 <= k < |Acronyms(ds, c)|
        && Acronyms(ds, c)[k] == r.value
        && HasName(r.value, name)
        && (forall j :: 0 <= j < k ==> !HasName(Acronyms(ds, c)[j], name))
  {
    GetModelInSpec(ds, category, name);
    GetModelIn(ds, AllCategories, category, name)
  }

  /**
   * Once the category is matched, `get_model` is the search of that category's
   * table alone: no other member has the same name ignoring case.
   */
  lemma GetModelOfCategory(ds: Dataset, c: PulseSequenceCategory, category: string, name: string)
    requires NamesCategory(category, c)
    ensures GetModel(ds, category, name) == FindModel(Acronyms(ds, c), name)
  {
    GetModelInOfCategory(ds, c, category, name);
  }

  /** What `get_model` returns is in the matched category's table, under the name asked for. */
  lemma GetModelSound(ds: Dataset, category: string, name: string)
    requires GetModel(ds, category, name).Some?
    ensures exists c ::
      && NamesCategory(category, c)
      && GetModel(ds, category, name).value in Acronyms(ds, c)
      && HasName(GetModel(ds, category, name).value, name)
  {
    var m := GetModel(ds, category, name).value;
    var c, k :| NamesCategory(category, c) && 0 <= k < |Acronyms(ds, c)| && Acronyms(ds, c)[k] == m
      && HasName(m, name);
  }
}
