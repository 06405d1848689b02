/**
 * The comma-separated files the reader writes, as values: a file name and the lines
 * written to it, each line without its line separator.
 */
module Csv {
  import opened Text

  datatype CsvFile = CsvFile(name: string, lines: seq<string>)

  /** Java's `String.join(",", cells)`. */
  function Row(cells: seq<string>): string {
    Join(cells, ',')
  }

  /** A row of comma-free cells splits back into its cells. */
  lemma RowDecodes(cells: seq<string>)
    requires |cells| >= 1
    requires forall k :: 0 <= k < |cells| ==> ',' !in cells[k]
    ensures SplitOn(Row(cells), ',') == cells
  {
    SplitJoin(cells, ',');
  }
}
