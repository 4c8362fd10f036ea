/**
 * The records of src/mri_acronyms/models/pydantic_models.py and their field
 * validators, each a function that returns its input or the error it raises.
 */
module Models {
  import opened Wrappers
  import Constants

  /** The three fields `MriSequenceModel` adds to `MriParameterModel`. */
  datatype SequenceFields = SequenceFields(
    imageWeighting: Option<string>,
    classification: Option<string>,
    acquisitionModes: seq<string>)

  /**
   * One concept: an `MriParameterModel`, or an `MriSequenceModel` when `sequence`
   * holds the extra fields. The five vendor lists hold that vendor's acronyms.
   */
  datatype Model = Model(
    name: string,
    description: string,
    url: string,
    siemens: seq<string>,
    ge: seq<string>,
    philips: seq<string>,
    canon: seq<string>,
    hitachi: seq<string>,
    sequence: Option<SequenceFields>)

  /** The `ValueError`s the validators raise. */
  datatype ValidationError =
    | InvalidName(name: string)
    | BeginningWhitespace
    | EndingWhitespace
    | EmptyElement
    | NullElement
    | DuplicateElement
    | InvalidImageWeighting
    | InvalidClassification
    | InvalidAcquisitionMode(mode: string)

  // ---------------------------------------------------------------------------
  // check_name: re.match("^[a-z0-9_]*$", v)

  predicate IsNameChar(c: char) {
    'a' <= c <= 'z' || '0' <= c <= '9' || c == '_'
  }

  predicate AllNameChars(s: string) {
    forall i :: 0 <= i < |s| ==> IsNameChar(s[i])
  }

  /**
   * The regular expression run from position `i`: the class repeated greedily,
   * then `$`, which holds at the end of the text or just before a final line feed.
   */
  function NamePatternFrom(v: string, i: nat): bool
    requires i <= |v|
    decreases |v| - i
  {
    if i < |v| && IsNameChar(v[i]) then NamePatternFrom(v, i + 1)
    else i == |v| || (i + 1 == |v| && v[i] == '\n')
  }

  lemma {:induction false} NamePatternFromIff(v: string, i: nat)
    requires i <= |v|
    requires AllNameChars(v[..i])
    ensures NamePatternFrom(v, i) <==>
      AllNameChars(v) || (|v| > 0 && v[|v| - 1] == '\n' && AllNameChars(v[..|v| - 1]))
    decreases |v| - i
  {
    if i < |v| && IsNameChar(v[i]) {
      assert v[..i + 1] == v[..i] + [v[i]];
      NamePatternFromIff(v, i + 1);
    } else if i < |v| {
      assert !AllNameChars(v);
      if i + 1 == |v| && v[i] == '\n' {
        assert v[..|v| - 1] == v[..i];
      } else if |v| > 0 && v[|v| - 1] == '\n' {
        assert i < |v| - 1 && v[..|v| - 1][i] == v[i];
      }
    } else {
      assert v[..i] == v;
    }
  }

  /**
   * `MriParameterModel.check_name`. It accepts a name made of `[a-z0-9_]`, the
   * empty name included, and, because `$` also matches before a final line feed,
   * such a name followed by one "\n".
   */
  function CheckName(v: string): (r: Result<string, ValidationError>)
    ensures r.Success? <==>
      AllNameChars(v) || (|v| > 0 && v[|v| - 1] == '\n' && AllNameChars(v[..|v| - 1]))
    ensures r.Success? ==> r.value == v
    ensures r.Failure? ==> r.error == InvalidName(v)
  {
    NamePatternFromIff(v, 0);
    if NamePatternFrom(v, 0) then Success(v) else Failure(InvalidName(v))
  }

  // ---------------------------------------------------------------------------
  // check_description

  /** `MriParameterModel.check_description`: no space at either end, else the input unchanged. */
  function CheckDescription(v: string): (r: Result<string, ValidationError>)
    ensures r.Success? <==> (v == [] || (v[0] != ' ' && v[|v| - 1] != ' '))
    ensures r.Success? ==> r.value == v
    ensures r == Failure(BeginningWhitespace) <==> (v != [] && v[0] == ' ')
    ensures r == Failure(EndingWhitespace) <==> (v != [] && v[0] != ' ' && v[|v| - 1] == ' ')
  {
    if |v| > 0 && v[0] == ' ' then Failure(BeginningWhitespace)
    else if |v| > 0 && v[|v| - 1] == ' ' then Failure(EndingWhitespace)
    else Success(v)
  }

  // ---------------------------------------------------------------------------
  // check_vendor

  /** No element occurs twice. */
  predicate Distinct<T(==)>(s: seq<T>) {
    forall i, j :: 0 <= i < j < |s| ==> s[i] != s[j]
  }

  /** `len(set(elements)) == len(elements)` holds exactly when no element repeats. */
  lemma {:induction false} DistinctIffSetSize<T>(s: seq<T>)
    ensures |set x | x in s| == |s| <==> Distinct(s)
  {
    if s != [] {
      var t := s[1..];
      DistinctIffSetSize(t);
      assert s == [s[0]] + t;
      var st := set x | x in t;
      assert (set x | x in s) == st + {s[0]};
      assert |st| <= |t| by { SetSizeAtMostLength(t); }
      if s[0] in t {
        var k :| 0 <= k < |t| && t[k] == s[0];
        assert s[0] == s[k + 1];
        assert !Distinct(s);
        assert (set x | x in s) == st;
      } else {
        assert (set x | x in s) == st + {s[0]};
        assert Distinct(s) <==> Distinct(t) by {
          if Distinct(t) {
            forall i, j | 0 <= i < j < |s| ensures s[i] != s[j] {
              if i == 0 { assert s[j] == t[j - 1]; }
              else { assert s[i] == t[i - 1] && s[j] == t[j - 1]; }
            }
          }
          if Distinct(s) {
            forall i, j | 0 <= i < j < |t| ensures t[i] != t[j] {
              assert t[i] == s[i + 1] && t[j] == s[j + 1];
            }
          }
        }
      }
    }
  }

  lemma {:induction false} SetSizeAtMostLength<T>(s: seq<T>)
    ensures |set x | x in s| <= |s|
  {
    if s != [] {
      SetSizeAtMostLength(s[1..]);
      assert (set x | x in s) == (set x | x in s[1..]) + {s[0]};
    }
  }

  /**
   * `MriParameterModel.check_vendor` on the raw list, where `None` stands for
   * Python's null: an empty string, a null or a repeated element raises, checked
   * in that order; otherwise the list comes back unchanged.
   */
  function CheckVendor(elements: seq<Option<string>>): (r: Result<seq<Option<string>>, ValidationError>)
    ensures r.Success? <==>
      (forall i :: 0 <= i < |elements| ==> elements[i] != Some("") && elements[i].Some?)
      && Distinct(elements)
    ensures r.Success? ==> r.value == elements
    ensures r == Failure(EmptyElement) <==> Some("") in elements
    ensures r == Failure(NullElement) <==> Some("") !in elements && None in elements
    ensures r == Failure(DuplicateElement) <==> Some("") !in elements && None !in elements && !Distinct(elements)
  {
    DistinctIffSetSize(elements);
    if Some("") in elements then Failure(EmptyElement)
    else if None in elements then Failure(NullElement)
    else if |set e | e in elements| != |elements| then Failure(DuplicateElement)
    else Success(elements)
  }

  /** A validated vendor list as the raw list the validator saw. */
  function Raw(xs: seq<string>): (r: seq<Option<string>>)
    ensures |r| == |xs|
    ensures forall i :: 0 <= i < |xs| ==> r[i] == Some(xs[i])
  {
    if xs == [] then [] else [Some(xs[0])] + Raw(xs[1..])
  }

  /** A vendor list of a record passes `check_vendor`. */
  predicate VendorListValid(xs: seq<string>) {
    CheckVendor(Raw(xs)).Success?
  }

  lemma VendorListValidIff(xs: seq<string>)
    ensures VendorListValid(xs) <==> "" !in xs && Distinct(xs)
  {
    var r := Raw(xs);
    if VendorListValid(xs) {
      forall i, j | 0 <= i < j < |xs| ensures xs[i] != xs[j] {
        assert r[i] != r[j];
      }
    }
    if "" !in xs && Distinct(xs) {
      forall i, j | 0 <= i < j < |r| ensures r[i] != r[j] {
        assert xs[i] != xs[j];
      }
      assert Some("") !in r;
    }
  }

  // ---------------------------------------------------------------------------
  // MriSequenceModel validators

  /** `MriSequenceModel.check_image_weighting`: a key of `VALID_IMAGE_WEIGHTINGS`. */
  function CheckImageWeighting(v: Option<string>): (r: Result<Option<string>, ValidationError>)
    ensures r.Success? <==> v.Some? && v.value in Constants.VALID_IMAGE_WEIGHTINGS
    ensures r.Success? ==> r.value == v
  {
    if v.Some? && v.value in Constants.VALID_IMAGE_WEIGHTINGS then Success(v)
    else Failure(InvalidImageWeighting)
  }

  /** `MriSequenceModel.check_classification`: a key of `VALID_SEQUENCE_CLASSIFICATIONS`. */
  function CheckClassification(v: Option<string>): (r: Result<Option<string>, ValidationError>)
    ensures r.Success? <==> v.Some? && v.value in Constants.VALID_SEQUENCE_CLASSIFICATIONS
    ensures r.Success? ==> r.value == v
  {
    if v.Some? && v.value in Constants.VALID_SEQUENCE_CLASSIFICATIONS then Success(v)
    else Failure(InvalidClassification)
  }

  /**
   * `MriSequenceModel.check_acquisition_modes`: every element is one of the five
   * modes (an empty list and repeated modes pass); the first one that is not is
   * the one reported.
   */
  function {:induction false} CheckAcquisitionModes(elements: seq<string>): (r: Result<seq<string>, ValidationError>)
    ensures r.Success? <==> forall i :: 0 <= i < |elements| ==> elements[i] in Constants.VALID_ACQUISITION_MODES
    ensures r.Success? ==> r.value == elements
    ensures r.Failure? ==>
      exists k :: 0 <= k < |elements|
        && r.error == InvalidAcquisitionMode(elements[k])
        && elements[k] !in Constants.VALID_ACQUISITION_MODES
        && (forall j :: 0 <= j < k ==> elements[j] in Constants.VALID_ACQUISITION_MODES)
  {
    if elements == [] then Success(elements)
    else if elements[0] !in Constants.VALID_ACQUISITION_MODES then Failure(InvalidAcquisitionMode(elements[0]))
    else
      match CheckAcquisitionModes(elements[1..])
      case Success(_) => Success(elements)
      case Failure(e) =>
        assert forall j :: 0 < j < |elements| ==> elements[j] == elements[1..][j - 1];
        Failure(e)
  }

  // ---------------------------------------------------------------------------
  // Whole records

  /** Every `MriParameterModel` field validator accepts the record. */
  predicate IsValidParameter(m: Model) {
    && CheckName(m.name).Success?
    && CheckDescription(m.description).Success?
    && VendorListValid(m.siemens)
    && VendorListValid(m.ge)
    && VendorListValid(m.philips)
    && VendorListValid(m.canon)
    && VendorListValid(m.hitachi)
  }

  /** Every `MriSequenceModel` field validator accepts the record: the inherited ones and its own. */
  predicate IsValidSequence(m: Model) {
    && IsValidParameter(m)
    && m.sequence.Some?
    && CheckImageWeighting(m.sequence.value.imageWeighting).Success?
    && CheckClassification(m.sequence.value.classification).Success?
    && CheckAcquisitionModes(m.sequence.value.acquisitionModes).Success?
  }

  /** `MriSequenceModel` inherits the validators of `MriParameterModel`; this holds by the definition of `IsValidSequence`. */
  lemma SequenceInheritsParameterValidators(m: Model)
    requires IsValidSequence(m)
    ensures IsValidParameter(m)
    ensures CheckName(m.name) == Success(m.name)
    ensures CheckDescription(m.description) == Success(m.description)
  {
  }

  /**
   * An `MriParameterModel` given only its required fields: the five vendor lists
   * take their default, the empty list, which never makes the record invalid.
   */
  function NewParameter(name: string, description: string, url: string): (m: Model)
    ensures m.name == name && m.description == description && m.url == url
    ensures m.siemens == m.ge == m.philips == m.canon == m.hitachi == []
    ensures IsValidParameter(m) <==> CheckName(name).Success? && CheckDescription(description).Success?
  {
    Model(name, description, url, [], [], [], [], [], None)
  }
}
