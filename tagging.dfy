/** auto_tagging/tagging.py, the slice that turns the three sections' model
    output into the final page: clean the table and notes results, exclude
    the table keys from the notes, inject each section into its half of the
    page, and join the halves. */
module Tagging {
  import opened Wrappers
  import opened Utils
  import opened Injection
  import TableUtils
  import NotesUtils

  /** The run's arbitrary choices: the iteration orders of the cover and
      table sets, the per-row letters, the uuids and the placeholder draws. */
  datatype Choices = Choices(
    coverOrder: seq<Pair>, coverLetters: nat -> nat, coverUuid: string, coverDraws: nat -> nat,
    tableOrder: seq<Pair>, tableLetters: nat -> nat, tableUuid: string, tableDraws: nat -> TableDraw,
    notesLetters: nat -> nat, notesUuid: string)

  /** `table_outputs` after clean_results. */
  function TableOutputs(names: seq<string>, columns: seq<string>, inputs: seq<string>, outputs: seq<string>): seq<Pair>
  {
    TableUtils.CleanResults(ProcessTableResults(names, columns, inputs, outputs))
  }

  /** `table_output_values`: every key of the cleaned table results. */
  function TableOutputValues(tableOutputs: seq<Pair>): (r: seq<string>)
    ensures forall t :: t in r <==> exists p :: p in tableOutputs && p.text == t
  {
    var r := Texts(tableOutputs);
    assert forall p :: p in tableOutputs ==> p.text in r by {
      forall p | p in tableOutputs ensures p.text in r
      {
        var i :| 0 <= i < |tableOutputs| && tableOutputs[i] == p;
        assert r[i] == p.text;
      }
    }
    r
  }

  /** `Notes_outputs`: the notes sentences with a non-"O" first set label,
      turned into pairs and cleaned. IndexError when a label row is missing
      or empty. */
  function NotesOutputs(inputs: seq<string>, outputs: seq<seq<string>>, pick: seq<string> -> nat): (r: Result<seq<Pair>>)
  {
    match NotesUtils.KeptNotes(inputs, outputs, pick, |inputs|)
    case Failure(e) => Failure(e)
    case Success(kept) => Success(TableUtils.CleanResults(ProcessNotesResults(kept.0, kept.1)))
  }

  /** The cover half after modify_coverpage. */
  function CoverHalf(coverpage: string, c: Choices): string
  {
    ModifyCoverpageSpec(coverpage, c.coverOrder, c.coverLetters, c.coverUuid, c.coverDraws)
  }

  /** The other half after modify_statement_tabels and then
      modify_notespages. */
  function OtherHalf(otherPages: string, tableOutputs: seq<Pair>, notesOutputs: seq<Pair>, c: Choices): string
  {
    var tables := ModifyStatementTablesSpec(otherPages, c.tableOrder, c.tableLetters, c.tableUuid, c.tableDraws);
    ModifyNotespagesSpec(tables, notesOutputs, TableOutputValues(tableOutputs), c.notesLetters, c.notesUuid)
  }

  /** `final_result = html_string + other_pages3` */
  function FinalResult(coverpage: string, otherPages: string, tableOutputs: seq<Pair>, notesOutputs: seq<Pair>, c: Choices)
    : string
  {
    CoverHalf(coverpage, c) + OtherHalf(otherPages, tableOutputs, notesOutputs, c)
  }

  /** Neither half sees the other's input: the cover half depends on the
      cover page and its choices only, the other half on neither. */
  lemma HalvesIndependent(coverpage: string, otherPages: string, tables: seq<Pair>, notes: seq<Pair>, c: Choices,
                          otherPages': string, tables': seq<Pair>, notes': seq<Pair>, coverOrder': seq<Pair>)
    ensures FinalResult(coverpage, otherPages', tables', notes', c)[..|CoverHalf(coverpage, c)|] == CoverHalf(coverpage, c)
    ensures FinalResult(coverpage, otherPages, tables, notes, c.(coverOrder := coverOrder'))[|CoverHalf(coverpage, c.(coverOrder := coverOrder'))|..]
            == OtherHalf(otherPages, tables, notes, c)
  {
    var r := FinalResult(coverpage, otherPages', tables', notes', c);
    assert r[..|CoverHalf(coverpage, c)|] == CoverHalf(coverpage, c);
    var c' := c.(coverOrder := coverOrder');
    assert OtherHalf(otherPages, tables, notes, c') == OtherHalf(otherPages, tables, notes, c);
  }

  /** Every table row injected carries a cleaned key, so no key of one
      character or less reaches the page. */
  lemma TableRowsLong(names: seq<string>, columns: seq<string>, inputs: seq<string>, outputs: seq<string>, c: Choices)
    requires SetOrder(c.tableOrder, TableOutputs(names, columns, inputs, outputs))
    ensures forall i :: 0 <= i < |TableRows(c.tableOrder, c.tableLetters, c.tableUuid)| ==>
              |TableRows(c.tableOrder, c.tableLetters, c.tableUuid)[i].text| > 1
  {
    var tables := TableOutputs(names, columns, inputs, outputs);
    var rows := TableRows(c.tableOrder, c.tableLetters, c.tableUuid);
    TableTextsInjectedOnce(tables, c.tableOrder, c.tableLetters, c.tableUuid);
    forall i | 0 <= i < |rows| ensures |rows[i].text| > 1
    {
      assert Pair(rows[i].text, rows[i].tag) in tables;
    }
  }

  /** The notes pairs are cleaned keys labelled other than "O". */
  lemma NotesOutputsClean(inputs: seq<string>, outputs: seq<seq<string>>, pick: seq<string> -> nat)
    requires NotesOutputs(inputs, outputs, pick).Success?
    ensures forall p :: p in NotesOutputs(inputs, outputs, pick).value ==> |p.text| > 1 && p.tag != "O"
  {
  }

  /** Every notes row injected carries a cleaned key, labelled other than
      "us-gaap:O", that no table pair used. */
  lemma NotesRowsCleanAndExcluded(notes: seq<Pair>, tableOutputs: seq<Pair>, c: Choices)
    requires forall p :: p in notes ==> |p.text| > 1 && p.tag != "O"
    ensures var rows := NotesRows(notes, TableOutputValues(tableOutputs), c.notesLetters, c.notesUuid);
            forall i :: 0 <= i < |rows| ==>
              && |rows[i].text| > 1
              && rows[i].tag != "us-gaap:O"
              && forall p :: p in tableOutputs ==> p.text != rows[i].text
  {
    var exclude := TableOutputValues(tableOutputs);
    var kept := Unexcluded(notes, exclude);
    var rows := NotesRows(notes, exclude, c.notesLetters, c.notesUuid);
    NotesSkipExcluded(notes, exclude, c.notesLetters, c.notesUuid);
    forall i | 0 <= i < |rows|
      ensures |rows[i].text| > 1 && rows[i].tag != "us-gaap:O"
    {
      assert kept[i] in kept;
      assert rows[i].tag == "us-gaap:" + kept[i].tag;
      assert rows[i].tag[8..] == kept[i].tag;
      assert "us-gaap:O"[8..] == "O";
    }
  }

  /** A notes text that is also a table key is never injected into the notes,
      whatever its label. */
  lemma TableKeyNotReinjected(notes: seq<Pair>, tableOutputs: seq<Pair>, c: Choices, p: Pair)
    requires p in tableOutputs
    ensures forall i :: 0 <= i < |NotesRows(notes, TableOutputValues(tableOutputs), c.notesLetters, c.notesUuid)| ==>
              NotesRows(notes, TableOutputValues(tableOutputs), c.notesLetters, c.notesUuid)[i].text != p.text
  {
    NotesSkipExcluded(notes, TableOutputValues(tableOutputs), c.notesLetters, c.notesUuid);
  }
}
