/**
 * The lap-data table parser: turning an HTML results table into CSV rows.
 * A `<td>` is abstracted as the text fragments (the strings) under it and
 * the fragments under each of its `<p>` children; the table as its rows of
 * cells.  The text of each cell is taken, and the header row is then cleaned
 * so that every column after the first is named by what follows the first
 * ':' of its header cell.
 */
module LapDataParser {
  import opened PyText

  /**
   * A `<td>` element: for each `<p>` child, in document order, the strings
   * under it; and all the strings under the cell itself.
   */
  datatype Cell = Cell(paragraphs: seq<seq<string>>, strings: seq<string>)

  /**
   * `get_text(strip=True)`: every string stripped, the results concatenated
   * with no separator.  The text never starts or ends with whitespace.
   */
  function GetText(strings: seq<string>): (r: string)
    ensures r != [] ==> !IsSpace(r[0]) && !IsSpace(r[|r| - 1])
  {
    if strings == [] then [] else Strip(strings[0]) + GetText(strings[1..])
  }

  /** The text of every `<p>`, in order. */
  function ParagraphTexts(ps: seq<seq<string>>): (r: seq<string>)
    ensures |r| == |ps|
    ensures forall k :: 0 <= k < |ps| ==> r[k] == GetText(ps[k])
  {
    seq(|ps|, k requires 0 <= k < |ps| => GetText(ps[k]))
  }

  /**
   * `extract_name`: the text after the first ':' of the cell, stripped, or
   * the whole cell stripped when it has no ':'.  Later colons are kept, and
   * the result never starts or ends with whitespace.
   */
  function ExtractName(cell: string): (r: string)
    ensures |r| <= |cell|
    ensures r != [] ==> !IsSpace(r[0]) && !IsSpace(r[|r| - 1])
  {
    if ':' in cell then Strip(cell[IndexOf(cell, ':') + 1..]) else Strip(cell)
  }

  /** A cell without ':' is its own name, stripped. */
  lemma ExtractNameWithoutColon(cell: string)
    requires ':' !in cell
    ensures ExtractName(cell) == Strip(cell)
  {
  }

  /**
   * When the cell holds a ':' at position i and none before it, the name is
   * the stripped text after position i: everything after the first colon,
   * later colons included.
   */
  lemma ExtractNameAfterFirstColon(cell: string, i: nat)
    requires i < |cell| && cell[i] == ':' && ':' !in cell[..i]
    ensures ExtractName(cell) == Strip(cell[i + 1..])
  {
    IndexOfUnique(cell, ':', i);
  }

  /**
   * Cleaning a name that no longer holds a ':' changes nothing, so a header
   * cell with at most one ':' is cleaned once and for all.
   */
  lemma ExtractNameStable(cell: string)
    requires ':' !in ExtractName(cell)
    ensures ExtractName(ExtractName(cell)) == ExtractName(cell)
  {
    var name := ExtractName(cell);
    StripOfTrimmed(name);
  }

  /**
   * The text of a cell: the texts of its `<p>` children, one per line, when it
   * has `<p>` children, and otherwise its own text.  A cell without `<p>`
   * children gives a text with no surrounding whitespace; when no `<p>` text
   * holds a line feed of its own, line k of the cell text is the k-th `<p>`
   * text.
   */
  function CellText(td: Cell): (r: string)
    ensures td.paragraphs == [] ==> r == GetText(td.strings)
    ensures td.paragraphs == [] && r != [] ==> !IsSpace(r[0]) && !IsSpace(r[|r| - 1])
    ensures td.paragraphs != [] && (forall k :: 0 <= k < |td.paragraphs| ==> '\n' !in GetText(td.paragraphs[k])) ==>
      SplitLines(r) == ParagraphTexts(td.paragraphs)
  {
    var texts := ParagraphTexts(td.paragraphs);
    if texts != [] then
      assert (forall k :: 0 <= k < |texts| ==> '\n' !in texts[k]) ==> SplitLines(JoinLines(texts)) == texts by {
        if forall k :: 0 <= k < |texts| ==> '\n' !in texts[k] {
          SplitJoinLines(texts);
        }
      }
      JoinLines(texts)
    else
      GetText(td.strings)
  }

  /**
   * The cleaned header: as long as the header, its first cell kept as it is,
   * every later cell replaced by its extracted name.
   */
  function CleanHeader(header: seq<string>): (r: seq<string>)
    requires |header| > 0
    ensures |r| == |header|
    ensures r[0] == header[0]
    ensures forall j :: 1 <= j < |header| ==> r[j] == ExtractName(header[j])
  {
    seq(|header|, j requires 0 <= j < |header| => if j == 0 then header[0] else ExtractName(header[j]))
  }

  /**
   * The table part of `process_and_save_csv`: the text of every cell, row by
   * row, then the first row replaced by its cleaned version.  The source
   * indexes the first row and its first cell, so the table must have a row
   * and that row a cell.
   */
  method ProcessTable(table: seq<seq<Cell>>) returns (rows: seq<seq<string>>)
    requires |table| > 0 && |table[0]| > 0
    ensures |rows| == |table|
    ensures forall i :: 0 <= i < |table| ==> |rows[i]| == |table[i]|
    ensures rows[0][0] == CellText(table[0][0])
    ensures forall j :: 1 <= j < |table[0]| ==> rows[0][j] == ExtractName(CellText(table[0][j]))
    ensures forall i, j :: 1 <= i < |table| && 0 <= j < |table[i]| ==> rows[i][j] == CellText(table[i][j])
  {
    rows := [];
    for i := 0 to |table|
      invariant |rows| == i
      invariant forall m :: 0 <= m < i ==> IsRowText(rows[m], table[m])
    {
      var row := [];
      for j := 0 to |table[i]|
        invariant IsRowText(row, table[i][..j])
      {
        assert table[i][..j + 1] == table[i][..j] + [table[i][j]];
        row := row + [CellText(table[i][j])];
      }
      assert table[i][..|table[i]|] == table[i];
      rows := rows + [row];
    }
    var header := rows[0];
    rows := rows[0 := CleanHeader(header)];
  }

  /** `row` holds the texts of `cells`, in order. */
  predicate IsRowText(row: seq<string>, cells: seq<Cell>) {
    |row| == |cells| && forall k :: 0 <= k < |cells| ==> row[k] == CellText(cells[k])
  }
}
