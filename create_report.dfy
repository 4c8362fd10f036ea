/**
 * `build_data_records` of src/mri_acronyms/create_report.py: one row of eight
 * cells per concept, in enumeration order and then declaration order, with each
 * vendor's acronyms joined by `SEP`.
 */
module Report {
  import opened Text
  import opened Models
  import opened Categories
  import Validation
  import Constants

  /** A cell of a report row: the group number, or a string. */
  datatype Cell = IntCell(n: int) | StrCell(s: string)

  /** The row `build_data_records` builds for model `m` of category `c`. */
  function Row(c: PulseSequenceCategory, m: Model): (r: seq<Cell>)
    ensures |r| == 8
    ensures r[0] == IntCell(Order(c)) && r[2] == StrCell(m.name)
  {
    [
      IntCell(Order(c)),
      StrCell(Lower(Name(c))),
      StrCell(m.name),
      StrCell(Join(m.siemens, Constants.SEP)),
      StrCell(Join(m.ge, Constants.SEP)),
      StrCell(Join(m.philips, Constants.SEP)),
      StrCell(Join(m.canon, Constants.SEP)),
      StrCell(Join(m.hitachi, Constants.SEP))
    ]
  }

  /** The rows of the entries `es`, one per entry, in order. */
  function RowsOf(es: seq<(PulseSequenceCategory, Model)>): (r: seq<seq<Cell>>)
    ensures |r| == |es|
  {
    seq(|es|, k requires 0 <= k < |es| => Row(es[k].0, es[k].1))
  }

  /**
   * The eight cells of a row line up with the eight `HEADERS`: the group number,
   * the category as `str` prints it, the model name, and the five vendor lists,
   * an empty list giving an empty cell.
   */
  lemma RowFields(c: PulseSequenceCategory, m: Model)
    ensures |Row(c, m)| == |Constants.HEADERS| == 8
    ensures Row(c, m)[0] == IntCell(Order(c)) && 1 <= Order(c) <= 9
    ensures Row(c, m)[1] == StrCell(Str(c))
    ensures Row(c, m)[2] == StrCell(m.name)
    ensures Row(c, m)[3..] == [
      StrCell(Join(m.siemens, Constants.SEP)),
      StrCell(Join(m.ge, Constants.SEP)),
      StrCell(Join(m.philips, Constants.SEP)),
      StrCell(Join(m.canon, Constants.SEP)),
      StrCell(Join(m.hitachi, Constants.SEP))]
    ensures m.siemens == [] ==> Row(c, m)[3] == StrCell("")
    ensures m.ge == [] ==> Row(c, m)[4] == StrCell("")
    ensures m.philips == [] ==> Row(c, m)[5] == StrCell("")
    ensures m.canon == [] ==> Row(c, m)[6] == StrCell("")
    ensures m.hitachi == [] ==> Row(c, m)[7] == StrCell("")
    ensures |m.siemens| == 1 ==> Row(c, m)[3] == StrCell(m.siemens[0])
    ensures |m.ge| == 1 ==> Row(c, m)[4] == StrCell(m.ge[0])
    ensures |m.philips| == 1 ==> Row(c, m)[5] == StrCell(m.philips[0])
    ensures |m.canon| == 1 ==> Row(c, m)[6] == StrCell(m.canon[0])
    ensures |m.hitachi| == 1 ==> Row(c, m)[7] == StrCell(m.hitachi[0])
  {
    StrIsLowerName(c);
  }

  lemma RowsOfSnoc(es: seq<(PulseSequenceCategory, Model)>, c: PulseSequenceCategory, m: Model)
    ensures RowsOf(es + [(c, m)]) == RowsOf(es) + [Row(c, m)]
  {
  }

  /**
   * `build_data_records`: `check_for_duplicates` runs first and only reports; then
   * one row is appended per model of each category, categories in enumeration order.
   */
  method BuildDataRecords(ds: Dataset) returns (rows: seq<seq<Cell>>)
    ensures rows == RowsOf(Entries(ds))
    ensures |rows| == TotalModels(ds)
    ensures forall k :: 0 <= k < |rows| ==> |rows[k]| == |Constants.HEADERS|
  {
    var names, acronyms := Validation.CheckForDuplicates(ds);
    rows := [];
    var cs := AllCategories;
    var i := 0;
    while i < |cs|
      invariant 0 <= i <= |cs|
      invariant rows == RowsOf(EntriesOf(ds, cs[..i]))
    {
      rows := AppendCategoryRows(ds, cs[i], rows, EntriesOf(ds, cs[..i]));
      EntriesOfSnoc(ds, cs, i);
      i := i + 1;
    }
    assert cs[..i] == cs;
    EntriesCount(ds);
  }

  /** The inner loop of `build_data_records`: one row per model of `category`, after the rows of `done`. */
  method AppendCategoryRows(ds: Dataset, category: PulseSequenceCategory, rows0: seq<seq<Cell>>,
                            ghost done0: seq<(PulseSequenceCategory, Model)>)
    returns (rows: seq<seq<Cell>>)
    requires rows0 == RowsOf(done0)
    ensures rows == RowsOf(done0 + CategoryEntries(ds, category))
  {
    rows := rows0;
    ghost var done := done0;
    var models := Acronyms(ds, category);
    var j := 0;
    while j < |models|
      invariant 0 <= j <= |models|
      invariant done == done0 + CategoryEntries(ds, category)[..j]
      invariant rows == RowsOf(done)
    {
      var acronym := models[j];
      var row := [
        IntCell(Order(category)),
        StrCell(Lower(Name(category))),
        StrCell(acronym.name),
        StrCell(Join(acronym.siemens, Constants.SEP)),
        StrCell(Join(acronym.ge, Constants.SEP)),
        StrCell(Join(acronym.philips, Constants.SEP)),
        StrCell(Join(acronym.canon, Constants.SEP)),
        StrCell(Join(acronym.hitachi, Constants.SEP))
      ];
      Validation.CategoryEntriesPrefix(ds, category, j);
      RowsOfSnoc(done, category, acronym);
      done := done + [(category, acronym)];
      rows := rows + [row];
      j := j + 1;
    }
    assert CategoryEntries(ds, category)[..j] == CategoryEntries(ds, category);
  }

  /** The entries of the first `i` categories come in enumeration order and belong to those categories. */
  lemma {:induction false} EntriesOfInOrder(ds: Dataset, i: nat)
    requires i <= |AllCategories|
    ensures var es := EntriesOf(ds, AllCategories[..i]);
      && (forall k :: 0 <= k < |es| ==> Order(es[k].0) <= i)
      && (forall k1, k2 :: 0 <= k1 <= k2 < |es| ==> Order(es[k1].0) <= Order(es[k2].0))
  {
    if i > 0 {
      EntriesOfInOrder(ds, i - 1);
      EntriesOfSnoc(ds, AllCategories, i - 1);
      OrderIsDeclarationPosition();
    } else {
      assert AllCategories[..0] == [];
    }
  }

  /** The rows are grouped by category, in enumeration order: the group number never decreases. */
  lemma RowsInEnumerationOrder(ds: Dataset)
    ensures var rows := RowsOf(Entries(ds));
      forall k1, k2 :: 0 <= k1 <= k2 < |rows| ==> rows[k1][0].n <= rows[k2][0].n
  {
    EntriesOfInOrder(ds, |AllCategories|);
    assert AllCategories[..|AllCategories|] == AllCategories;
    assert EntriesOf(ds, AllCategories[..|AllCategories|]) == Entries(ds);
    var es: seq<(PulseSequenceCategory, Model)>, rows: seq<seq<Cell>> := Entries(ds), RowsOf(Entries(ds));
    forall k1, k2 | 0 <= k1 <= k2 < |rows| ensures rows[k1][0].n <= rows[k2][0].n {
      assert rows[k1][0].n == Order(es[k1].0) && rows[k2][0].n == Order(es[k2].0);
      assert Order(es[k1].0) <= Order(es[k2].0);
    }
  }

  /** Every model of every category has its row, and every row is the row of such a model. */
  lemma RowsCoverModels(ds: Dataset)
    ensures forall c, m :: m in Acronyms(ds, c) ==> Row(c, m) in RowsOf(Entries(ds))
    ensures forall k :: 0 <= k < |Entries(ds)| ==>
      Entries(ds)[k].1 in Acronyms(ds, Entries(ds)[k].0) && RowsOf(Entries(ds))[k] == Row(Entries(ds)[k].0, Entries(ds)[k].1)
  {
    var es := Entries(ds);
    forall c, m | m in Acronyms(ds, c) ensures Row(c, m) in RowsOf(es) {
      EntriesMember(ds, c, m);
      var k :| 0 <= k < |es| && es[k] == (c, m);
      assert RowsOf(es)[k] == Row(c, m);
    }
    forall k | 0 <= k < |es| ensures es[k].1 in Acronyms(ds, es[k].0) {
      EntriesMember(ds, es[k].0, es[k].1);
    }
  }
}
