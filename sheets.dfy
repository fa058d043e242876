/** The spreadsheet the scripts share, seen through the few worksheet calls
    they make. The sheet is a grid of text cells; sheet row numbers are
    1-based and row 1 holds the column headers. */
module Sheets {
  import opened Common

  /** The placeholder the pipeline writes instead of a blank cell, and that
      the dashboard reads back as a missing value. */
  const NotFound := "Não encontrado"

  /** Column headers the scripts look up by name. */
  const NameKey := "Nome da Startup"
  const CountryKey := "País"
  const SectorKey := "Setor de Atuação"
  const YearKey := "Ano de Fundação"

  /** `worksheet.find(value)`: scans the cells row by row and reports the
      1-based number of the first row that holds a cell equal to `value`
      (the header row included), or `None` when no cell matches. */
  function FindRow(rows: seq<seq<string>>, value: string): (r: Option<nat>)
    ensures r.Some? ==> 1 <= r.value <= |rows| && value in rows[r.value - 1]
    ensures r.Some? ==> forall k :: 0 <= k < r.value - 1 ==> value !in rows[k]
    ensures r.None? <==> forall k :: 0 <= k < |rows| ==> value !in rows[k]
  {
    if rows == [] then None
    else if value in rows[0] then Some(1)
    else match FindRow(rows[1..], value)
      case None => None
      case Some(n) => Some(n + 1)
  }

  /** A row appended below a sheet in which `value` occurs nowhere is where
      `find` reports it afterwards. */
  lemma FindAfterAppend(rows: seq<seq<string>>, row: seq<string>, value: string)
    requires FindRow(rows, value).None?
    requires value in row
    ensures FindRow(rows + [row], value) == Some(|rows| + 1)
  {
    var r := FindRow(rows + [row], value);
    assert (rows + [row])[|rows|] == row;
    assert r.Some?;
  }

  /** The position of the right-most column called `key`, if any. */
  function LastColumn(header: seq<string>, key: string): (c: Option<nat>)
    ensures c.None? <==> key !in header
    ensures c.Some? ==> c.value < |header| && header[c.value] == key
    ensures c.Some? ==> forall k :: c.value < k < |header| ==> header[k] != key
  {
    if header == [] then None
    else if header[|header| - 1] == key then Some(|header| - 1)
    else LastColumn(header[..|header| - 1], key)
  }

  /** The value of column `key` in a data row, as `get_all_records` builds
      it: the record maps each header to the cell under it (rows shorter
      than the header are padded with blanks, and when a header repeats the
      right-most column wins); `record.get(key, '')` gives `''` when no
      column is called `key`. */
  function Field(header: seq<string>, row: seq<string>, key: string): (v: string)
    ensures key !in header ==> v == ""
    ensures v != "" ==> key in header
  {
    match LastColumn(header, key)
    case None => ""
    case Some(c) => if c < |row| then row[c] else ""
  }

  /** The field is the cell under the right-most column called `key`, or a
      blank when the row stops before that column. */
  lemma FieldIsRightmostCell(header: seq<string>, row: seq<string>, key: string, c: nat)
    requires c < |header| && header[c] == key
    requires forall k :: c < k < |header| ==> header[k] != key
    ensures Field(header, row, key) == (if c < |row| then row[c] else "")
  {
    var last := LastColumn(header, key);
    assert last.Some?;
    assert last.value == c;
  }

  /** The worksheet as the scripts mutate it. */
  class Worksheet {
    /** The grid, top row first; `rows[0]` is sheet row 1. */
    var rows: seq<seq<string>>

    constructor (initial: seq<seq<string>>)
      ensures rows == initial
    {
      rows := initial;
    }

    /** `worksheet.append_row(row)`: the row goes below the last one. */
    method AppendRow(row: seq<string>)
      modifies this
      ensures rows == old(rows) + [row]
    {
      rows := rows + [row];
    }

    /** `worksheet.delete_rows(index)`: sheet row `index` goes away and the
        rows below it move up by one. */
    method DeleteRow(index: nat)
      requires 1 <= index <= |rows|
      modifies this
      ensures |rows| == |old(rows)| - 1
      ensures rows == old(rows)[..index - 1] + old(rows)[index..]
    {
      rows := rows[..index - 1] + rows[index..];
    }
  }
}
