/**
 * The optional export at the end of `extractMomenta`: with an output directory given,
 * one comma-separated file per particle slot, a header line and then one row per event,
 * in event order, each row the slot's four momentum strings joined by commas.
 */
module MomentaExport {
  import opened Text
  import opened Csv
  import opened Kinematics

  const MomentaHeader: string := "E (GeV), px (GeV), py (GeV), pz (GeV)"

  /**
   * `String.format("%ssim_momenta_%d.csv", dir, slot + 1)`: the directory, `sim_momenta_`,
   * the slot counted from 1 in decimal, then `.csv`.
   */
  function FileName(dir: string, slot: nat): (name: string)
    ensures |dir| + 17 <= |name|
    ensures name[..|dir|] == dir && name[|dir|..|dir| + 12] == "sim_momenta_"
    ensures name[|name| - 4..] == ".csv"
    ensures var digits := name[|dir| + 12..|name| - 4];
              AllDigits(digits) && (|digits| > 1 ==> digits[0] != '0') && DigitsValue(digits) == slot + 1
  {
    DigitsValueOfNatToString(slot + 1);
    var digits := NatToString(slot + 1);
    var name := dir + "sim_momenta_" + digits + ".csv";
    assert name[|dir| + 12..|name| - 4] == digits;
    name
  }

  /** The lines written for particle slot `slot`. */
  function SlotLines(rows: seq<seq<FourMomentum>>, slot: nat): (lines: seq<string>)
    requires forall e :: 0 <= e < |rows| ==> slot < |rows[e]|
    ensures |lines| == |rows| + 1
  {
    [MomentaHeader] + seq(|rows|, e requires 0 <= e < |rows| => Row(Components(rows[e][slot])))
  }

  /** The files written for the table `rows` (event-major), none when no path is given. */
  function MomentaFiles(path: seq<string>, m: nat, rows: seq<seq<FourMomentum>>): (files: seq<CsvFile>)
    requires Rectangular(rows, m)
    ensures |path| == 0 ==> files == []
    ensures |path| > 0 ==> |files| == m
    ensures |path| > 0 ==> forall i :: 0 <= i < m ==>
              files[i].name == FileName(path[0], i) && |files[i].lines| == |rows| + 1
  {
    if |path| == 0 then []
    else seq(m, i requires 0 <= i < m => CsvFile(FileName(path[0], i), SlotLines(rows, i)))
  }

  /**
   * Without a path nothing is written; with one, slot `i`'s file is named after `i + 1`
   * in the first path's directory and holds the header and then one row per event: the
   * slot's E, px, py and pz in that event, in event order.
   */
  lemma MomentaFilesContents(path: seq<string>, m: nat, rows: seq<seq<FourMomentum>>)
    requires Rectangular(rows, m)
    ensures |path| == 0 ==> MomentaFiles(path, m, rows) == []
    ensures |path| > 0 ==> |MomentaFiles(path, m, rows)| == m
    ensures |path| > 0 ==> forall i :: 0 <= i < m ==>
              && MomentaFiles(path, m, rows)[i].name == FileName(path[0], i)
              && |MomentaFiles(path, m, rows)[i].lines| == |rows| + 1
              && MomentaFiles(path, m, rows)[i].lines[0] == MomentaHeader
              && forall e :: 0 <= e < |rows| ==>
                   MomentaFiles(path, m, rows)[i].lines[e + 1] == Row(Components(rows[e][i]))
  {
  }

  /** Different slots write to different files: no file overwrites another. */
  lemma FileNamesDistinct(dir: string, i: nat, j: nat)
    requires FileName(dir, i) == FileName(dir, j)
    ensures i == j
  {
    var pre := dir + "sim_momenta_";
    var x, y := NatToString(i + 1), NatToString(j + 1);
    assert |x| == |y|;
    calc {
      x;
      == (pre + x + ".csv")[|pre|..|pre| + |x|];
      == (pre + y + ".csv")[|pre|..|pre| + |y|];
      == y;
    }
    NatToStringInjective(i + 1, j + 1);
  }

  /**
   * Reading a row back by splitting at commas gives the four momentum strings, provided
   * none of them holds a comma.
   */
  lemma SlotRowsDecode(rows: seq<seq<FourMomentum>>, slot: nat, e: nat)
    requires forall d :: 0 <= d < |rows| ==> slot < |rows[d]|
    requires e < |rows|
    requires forall c :: 0 <= c < 4 ==> ',' !in Components(rows[e][slot])[c]
    ensures SplitOn(SlotLines(rows, slot)[e + 1], ',') == Components(rows[e][slot])
  {
    RowDecodes(Components(rows[e][slot]));
  }
}
