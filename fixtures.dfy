/**
 * A few entries of the curated tables (src/mri_acronyms/pulse_sequences/) and
 * the concrete behaviour of the matcher, the validators, `sanitize` and
 * `dedup_acronyms` on them.
 */
module Fixtures {
  import opened Wrappers
  import opened Text
  import opened Models
  import opened Categories
  import opened Validation
  import opened Search
  import Constants

  // ---------------------------------------------------------------------------
  // Entries of the curated tables

  /** `spin_echo` (spin_echo.py). */
  const SpinEcho: Model := Model(
    "spin_echo",
    "single echo measured during each TR by (1) 90 degree excitation and (1) 180 refocusing pulse",
    "https://mriquestions.com/spin-echo1.html",
    ["SE"], ["SE"], ["SE"], ["SE"], ["SE"],
    Some(SequenceFields(Some("ANY"), Some("spin_echo"), ["2d_slices"])))

  /** `single_shot_tse` (spin_echo.py), HASTE on Siemens scanners. */
  const SingleShotTse: Model := Model(
    "single_shot_tse",
    "fast T2-weighted images acquired in single shot (1 slice per acquisition)",
    "https://mriquestions.com/hastess-fse.html",
    ["HASTE"], ["Single-Shot FSE"], ["Single-Shot TSE"], ["FASE"], ["Single-Shot FSE"],
    Some(SequenceFields(Some("ANY"), Some("spin_echo"), ["2d_slices", "3d_volume"])))

  /** `coherent_gre_with_balanced_fid_echo_refocusing_ssfp` (gradient_echo.py), TrueFISP on Siemens scanners. */
  const BalancedSsfp: Model := Model(
    "coherent_gre_with_balanced_fid_echo_refocusing_ssfp",
    "high CNR & bright fluid with mixture of T2/T1 contrast",
    "https://mriquestions.com/ssfp-mra.html",
    ["TrueFISP"], ["FIESTA"], ["Balanced FFE", "b-FFE"], ["True SSFP"], ["Balanced SARGE", "BASG"],
    Some(SequenceFields(Some("T2/T1"), Some("steady_state"), ["2d_slices", "3d_volume"])))

  /** `fatsat_chemical_adiabatic` (scanner_parameters.py). */
  const FatsatChemicalAdiabatic: Model := Model(
    "fatsat_chemical_adiabatic",
    "uses a full 180º adiabatic inverting pulse that is insensitive to B1 inhomogeneity",
    "https://mriquestions.com/best-method.html",
    ["SPAIR"], ["ASPIR"], ["SPAIR"], ["SPAIR"], [],
    None)

  /** A dataset holding only these entries, each in its own category. */
  const Data: Dataset := Dataset(
    [SpinEcho, SingleShotTse], [BalancedSsfp], [], [], [], [], [], [], [FatsatChemicalAdiabatic])

  /** The lookup table of `Data`: each concept with its deduplicated acronyms. */
  const Lut: Table := [
    ("SPIN_ECHO_SEQUENCES", [
      ("spin_echo", ["SE"]),
      ("single_shot_tse", ["FASE", "HASTE", "Single-Shot FSE", "Single-Shot TSE"])]),
    ("GRADIENT_ECHO_SEQUENCES", [
      ("coherent_gre_with_balanced_fid_echo_refocusing_ssfp",
        ["BASG", "Balanced FFE", "Balanced SARGE", "FIESTA", "True SSFP", "TrueFISP", "b-FFE"])]),
    ("SCANNER_PARAMETERS", [
      ("fatsat_chemical_adiabatic", ["ASPIR", "SPAIR"])])
  ]

  // ---------------------------------------------------------------------------
  // The validators on the entries

  /** A description with a space at either end is refused, and a name with a capital letter too. */
  lemma ValidatorsRefuse()
    ensures CheckDescription(" fast T2") == Failure(BeginningWhitespace)
    ensures CheckDescription("fast T2 ") == Failure(EndingWhitespace)
    ensures CheckName("Single_shot_tse") == Failure(InvalidName("Single_shot_tse"))
    ensures CheckName("") == Success("")
    ensures CheckVendor([Some("SE"), Some("SE")]) == Failure(DuplicateElement)
    ensures CheckVendor([Some("SE"), None]) == Failure(NullElement)
  {
    assert !IsNameChar("Single_shot_tse"[0]);
    assert [Some("SE"), Some("SE")][0] == [Some("SE"), Some("SE")][1];
  }

  // ---------------------------------------------------------------------------
  // match_acronym on the lookup table

  lemma LutWellFormed()
    ensures WellFormed(Lut)
  {
  }

  /** Every acronym of `Lut`. */
  const LutAcronyms: seq<string> := [
    "SE", "FASE", "HASTE", "Single-Shot FSE", "Single-Shot TSE",
    "BASG", "Balanced FFE", "Balanced SARGE", "FIESTA", "True SSFP", "TrueFISP", "b-FFE",
    "ASPIR", "SPAIR"]

  lemma InLut(a: string)
    requires InTable(Lut, a)
    ensures a in LutAcronyms
  {
  }

  /** Only "HASTE" among the acronyms of `Lut` is "haste" once lower-cased, and it names one concept. */
  lemma OnlyHaste()
    ensures forall b :: InTable(Lut, b) && Lower(b) == Lower("HASTE") ==> b == "HASTE"
    ensures forall i, j :: 0 <= i < |Lut| && 0 <= j < |Lut[i].1| && "HASTE" in Lut[i].1[j].1 ==> i == 0 && j == 1
  {
    forall b | InTable(Lut, b) && Lower(b) == Lower("HASTE") ensures b == "HASTE" {
      InLut(b);
      LowerAgrees(b, "HASTE");
      assert |b| == 5 && LowerChar(b[0]) == 'h';
    }
  }

  /** Only "TrueFISP" among the acronyms of `Lut` is "truefisp" once lower-cased, and it names one concept. */
  lemma OnlyTrueFisp()
    ensures forall b :: InTable(Lut, b) && Lower(b) == Lower("TrueFISP") ==> b == "TrueFISP"
    ensures forall i, j :: 0 <= i < |Lut| && 0 <= j < |Lut[i].1| && "TrueFISP" in Lut[i].1[j].1 ==> i == 1 && j == 0
  {
    forall b | InTable(Lut, b) && Lower(b) == Lower("TrueFISP") ensures b == "TrueFISP" {
      InLut(b);
      LowerAgrees(b, "TrueFISP");
      assert |b| == 8 && LowerChar(b[4]) == 'f';
    }
  }

  /** `get_model("SPIN_ECHO_SEQUENCES", "single_shot_tse")` on `Data`. */
  lemma LookUpSingleShotTse()
    ensures GetModel(Data, "SPIN_ECHO_SEQUENCES", "single_shot_tse") == Some(SingleShotTse)
  {
    GetModelOfCategory(Data, SpinEchoSequences, "SPIN_ECHO_SEQUENCES", "single_shot_tse");
    assert !HasName(SpinEcho, "single_shot_tse") by { assert |SpinEcho.name| != |"single_shot_tse"|; }
    assert Data.spinEcho[1..] == [SingleShotTse];
  }

  /** `get_model("GRADIENT_ECHO_SEQUENCES", <balanced SSFP>)` on `Data`. */
  lemma LookUpBalancedSsfp()
    ensures GetModel(Data, "GRADIENT_ECHO_SEQUENCES", BalancedSsfp.name) == Some(BalancedSsfp)
  {
    GetModelOfCategory(Data, GradientEchoSequences, "GRADIENT_ECHO_SEQUENCES", BalancedSsfp.name);
  }

  /** "HASTE" finds `single_shot_tse` among the spin echo sequences, with confidence 100. */
  lemma HasteScenario()
    ensures MatchResult(Data, "HASTE", Lut, DEFAULT_CUTOFF) == Success(Some(SingleShotTse))
  {
    OnlyHaste();
    LutWellFormed();
    UniqueAcronymPicked(Data, "HASTE", Lut, "HASTE", 0, 1);
    LookUpSingleShotTse();
  }

  /** "TrueFISP" finds the balanced SSFP sequence among the gradient echo sequences. */
  lemma TrueFispScenario()
    ensures MatchResult(Data, "TrueFISP", Lut, DEFAULT_CUTOFF) == Success(Some(BalancedSsfp))
  {
    OnlyTrueFisp();
    LutWellFormed();
    UniqueAcronymPicked(Data, "TrueFISP", Lut, "TrueFISP", 1, 0);
    LookUpBalancedSsfp();
  }

  /** A one-character keyword scores nothing, and `max()` of no scores raises, whatever the cutoff. */
  lemma OneCharacterScenario(cutoff: real)
    ensures MatchResult(Data, "A", Lut, cutoff) == Failure(NoCandidates)
  {
  }

  // ---------------------------------------------------------------------------
  // sanitize and dedup_acronyms on the entries

  lemma FrequencyShiftClean()
    ensures Clean("Frequency Shift")
  {
    WordsClean("Frequency", "Shift");
    assert "Frequency" + " " + "Shift" == "Frequency Shift";
  }

  lemma AmpersandSplit()
    ensures "Phase & Frequency Shift" == "Phase" + [' ', '&', ' '] + "Frequency Shift"
    ensures "Phase Frequency Shift" == "Phase" + " " + "Frequency Shift"
  {
  }

  /** `"Phase & Frequency Shift"` loses the ampersand and one of the two spaces around it. */
  lemma SanitizeAmpersand()
    ensures Sanitize("Phase & Frequency Shift") == "Phase Frequency Shift"
  {
    FrequencyShiftClean();
    AmpersandSplit();
    SanitizeLoneSymbol("Phase", '&', "Frequency Shift");
  }

  /** `"Trigger;"` loses its semicolon. */
  lemma SanitizeSemicolon()
    ensures Sanitize("Trigger;") == "Trigger"
  {
    SanitizeTrailingSymbol("Trigger", ';');
    assert "Trigger;" == "Trigger" + [';'];
  }

  /** Five vendors listing "SE" give one "SE". */
  lemma DedupSpinEcho()
    ensures Dedup(SpinEcho) == ["SE"]
  {
    SpinEchoWords();
    DedupOfOne(SpinEcho, "SE");
  }

  lemma SpinEchoWords()
    ensures VendorWords(SpinEcho) == {"SE"}
  {
  }

  lemma FatsatWords()
    ensures VendorWords(FatsatChemicalAdiabatic) == {"ASPIR", "SPAIR"}
  {
  }

  lemma AspirBeforeSpair()
    ensures LexLe("ASPIR", "SPAIR") && "ASPIR" != "SPAIR"
  {
  }

  /** The SPAIR / ASPIR record gives `["ASPIR", "SPAIR"]`: sorted, and not lower-cased. */
  lemma DedupFatsat()
    ensures Dedup(FatsatChemicalAdiabatic) == ["ASPIR", "SPAIR"]
  {
    FatsatWords();
    AspirBeforeSpair();
    DedupOfTwo(FatsatChemicalAdiabatic, "ASPIR", "SPAIR");
  }

  // ---------------------------------------------------------------------------
  // dedup_acronyms sanitises after deduplicating

  /** A record, not from the curated tables, whose two vendor entries differ only by a trailing `;`. */
  const TriggerTwice: Model := Model("trigger", "", "", ["Trigger;"], ["Trigger"], [], [], [], None)

  /** A record, not from the curated tables, whose one vendor entry is a lone symbol. */
  const SymbolOnly: Model := Model("symbol_only", "", "", [], ["&"], [], [], [], None)

  lemma TriggerTwiceWords()
    ensures VendorWords(TriggerTwice) == {"Trigger" + [';'], "Trigger"}
  {
    assert "Trigger;" == "Trigger" + [';'];
  }

  /** Two distinct entries that sanitise alike come out twice: the output can hold a duplicate. */
  lemma DedupKeepsSanitisedDuplicate()
    ensures Dedup(TriggerTwice) == ["Trigger", "Trigger"]
  {
    TriggerTwiceWords();
    DedupOfTrailingSymbol(TriggerTwice, "Trigger", ';');
  }

  /** The duplicate is then recorded twice under the record's one label, and reported. */
  lemma SanitisedDuplicateFlagged(c: PulseSequenceCategory)
    ensures "Trigger" in Flagged(IndexOf(ModelAcronymPairs(c, TriggerTwice, Dedup(TriggerTwice))))
  {
    DedupKeepsSanitisedDuplicate();
    var ps := ModelAcronymPairs(c, TriggerTwice, Dedup(TriggerTwice));
    assert ps[0].0 == "Trigger" && ps[1].0 == "Trigger";
    FlaggedIff(ps, "Trigger");
  }

  /** A vendor entry made only of symbols sanitises to the empty string. */
  lemma SanitizeSymbolOnly()
    ensures Sanitize("&") == ""
  {
    DropSymbolsAll("&");
  }

  lemma SymbolOnlyWords()
    ensures VendorWords(SymbolOnly) == {"&"}
  {
  }

  /** The empty string `dedup_acronyms` drops before sanitising can come back after it. */
  lemma DedupOfSymbolOnly()
    ensures Dedup(SymbolOnly) == [""]
  {
    SanitizeSymbolOnly();
    SymbolOnlyWords();
    DedupOfSanitisedOne(SymbolOnly, "&", "");
  }
}
