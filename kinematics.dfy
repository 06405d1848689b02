/**
 * The four-momenta `extractMomenta` reads from the event entries. Each entry is split
 * into lines with Java's `split("\n")`; line 0 is the event header and is never parsed;
 * line `i`, for the particle slots `i = 1 .. multiplicity`, is a particle line whose
 * energy and momentum columns are kept, as text, energy first.
 *
 * Parsing a line is pure, so the model reads each entry as the sequence of its parsed
 * lines and the slot logic works on that sequence: only the lines the slots look at
 * matter, as the lemmas below show.
 */
module Kinematics {
  import opened Wrappers
  import opened Text
  import opened ParticleLine
  import opened Failures

  datatype FourMomentum = FourMomentum(energy: string, px: string, py: string, pz: string)

  /** The four cells stored for one particle of one event: E, px, py, pz. */
  function Components(p: FourMomentum): (cs: seq<string>)
    ensures |cs| == 4
  {
    [p.energy, p.px, p.py, p.pz]
  }

  function MomentumOf(r: ParticleRecord): FourMomentum {
    FourMomentum(r.energy, r.px, r.py, r.pz)
  }

  /** Java's `entry.split("\n")`. */
  function SplitLines(entry: string): seq<string> {
    JavaSplit(entry, '\n')
  }

  /** What the particle-line regex captures on each line. */
  function ParseLines(lines: seq<string>): (parsed: seq<Option<ParticleRecord>>)
    ensures |parsed| == |lines|
  {
    seq(|lines|, i requires 0 <= i < |lines| => ParseParticleLine(lines[i]))
  }

  /**
   * The momentum of particle slot `i`, read from line `i` of an entry: the line's tenth
   * column as E, then its seventh, eighth and ninth as px, py and pz. A missing line is an
   * out-of-bounds index, a line the pattern does not match an invalid entry.
   */
  function SlotMomentum(parsed: seq<Option<ParticleRecord>>, i: nat): (r: Result<FourMomentum, Failure>)
    ensures r.Ok? <==> i < |parsed| && parsed[i].Some?
    ensures |parsed| <= i ==> r == Err(LineIndexOutOfBounds(i, |parsed|))
    ensures i < |parsed| && parsed[i].None? ==> r == Err(InvalidKinematicalEntry(i))
    ensures r.Ok? ==> var ws := Fields(parsed[i].value); Components(r.value) == [ws[9], ws[6], ws[7], ws[8]]
  {
    if |parsed| <= i then Err(LineIndexOutOfBounds(i, |parsed|))
    else match parsed[i]
      case None => Err(InvalidKinematicalEntry(i))
      case Some(r) => Ok(MomentumOf(r))
  }

  /** `ps` are the momenta of slots 1 to `|ps|`, in order. */
  predicate SlotsAre(parsed: seq<Option<ParticleRecord>>, ps: seq<FourMomentum>) {
    forall k :: 0 <= k < |ps| ==> SlotMomentum(parsed, k + 1) == Ok(ps[k])
  }

  /** Slots 1 to `n` in turn, stopping at the first that fails. */
  function SlotsUpTo(parsed: seq<Option<ParticleRecord>>, n: nat): (r: Result<seq<FourMomentum>, Failure>)
    ensures r.Ok? ==> |r.value| == n && SlotsAre(parsed, r.value)
    decreases n
  {
    if n == 0 then Ok([])
    else match SlotsUpTo(parsed, n - 1)
      case Err(f) => Err(f)
      case Ok(ms) =>
        match SlotMomentum(parsed, n)
        case Err(f) => Err(f)
        case Ok(p) => Ok(ms + [p])
  }

  /**
   * The momenta of the `m` particles of one event entry: particle `k` (from 0) is read from
   * line `k + 1`.
   */
  function EventMomenta(entry: string, m: nat): (r: Result<seq<FourMomentum>, Failure>)
    ensures r.Ok? ==> |r.value| == m && SlotsAre(ParseLines(SplitLines(entry)), r.value)
  {
    SlotsUpTo(ParseLines(SplitLines(entry)), m)
  }

  /**
   * An entry is read exactly when lines 1 to `m` exist and the pattern matches each of
   * them.
   */
  lemma EventMomentaMeaning(entry: string, m: nat)
    ensures EventMomenta(entry, m).Ok? <==>
              && (m == 0 || m < |SplitLines(entry)|)
              && forall k :: 1 <= k <= m ==> ParseLines(SplitLines(entry))[k].Some?
  {
    SlotsOk(ParseLines(SplitLines(entry)), m);
  }

  /** The slots succeed exactly when lines 1 to `n` exist and each was matched. */
  lemma SlotsOk(parsed: seq<Option<ParticleRecord>>, n: nat)
    ensures SlotsUpTo(parsed, n).Ok? <==> (n == 0 || n < |parsed|) && forall k :: 1 <= k <= n ==> parsed[k].Some?
  {
    SlotsUpToMeaning(parsed, n);
    if SlotsUpTo(parsed, n).Ok? && n > 0 {
      assert SlotMomentum(parsed, n).Ok?;
      forall k | 1 <= k <= n
        ensures parsed[k].Some?
      {
        assert SlotMomentum(parsed, k).Ok?;
      }
    }
  }

  /** Once a slot fails, the later slots are never read: the error stays. */
  lemma {:induction false} SlotsUpToStops(parsed: seq<Option<ParticleRecord>>, i: nat, n: nat)
    requires i <= n && SlotsUpTo(parsed, i).Err?
    ensures SlotsUpTo(parsed, n) == SlotsUpTo(parsed, i)
    decreases n
  {
    if i < n {
      SlotsUpToStops(parsed, i, n - 1);
    }
  }

  /**
   * The slots succeed together or fail at the first slot that fails, with that slot's
   * error.
   */
  lemma {:induction false} SlotsUpToMeaning(parsed: seq<Option<ParticleRecord>>, n: nat)
    ensures SlotsUpTo(parsed, n).Ok? <==> forall k :: 1 <= k <= n ==> SlotMomentum(parsed, k).Ok?
    ensures SlotsUpTo(parsed, n).Err? ==>
              exists k :: && 1 <= k <= n
                          && SlotMomentum(parsed, k) == Err(SlotsUpTo(parsed, n).error)
                          && forall j :: 1 <= j < k ==> SlotMomentum(parsed, j).Ok?
    decreases n
  {
    if n > 0 {
      SlotsUpToMeaning(parsed, n - 1);
      var r := SlotsUpTo(parsed, n - 1);
      if r.Ok? {
        assert forall k :: 1 <= k <= n - 1 ==> SlotMomentum(parsed, k) == Ok(r.value[k - 1]);
      }
    }
  }

  /**
   * An entry with no more than `m` lines fails at the first slot whose line is missing,
   * unless an earlier slot has already failed.
   */
  lemma ShortEntryFails(parsed: seq<Option<ParticleRecord>>, m: nat)
    requires |parsed| <= m && m >= 1
    ensures SlotsUpTo(parsed, m).Err?
    ensures (forall k :: 1 <= k < |parsed| ==> parsed[k].Some?) ==>
              SlotsUpTo(parsed, m).error == LineIndexOutOfBounds(if |parsed| == 0 then 1 else |parsed|, |parsed|)
  {
    SlotsUpToMeaning(parsed, m);
    var k := if |parsed| == 0 then 1 else |parsed|;
    assert SlotMomentum(parsed, k).Err?;
    if forall k :: 1 <= k < |parsed| ==> parsed[k].Some? {
      var j :| && 1 <= j <= m
               && SlotMomentum(parsed, j) == Err(SlotsUpTo(parsed, m).error)
               && forall i :: 1 <= i < j ==> SlotMomentum(parsed, i).Ok?;
      assert j == k;
    }
  }

  /**
   * Two entries with the same number of lines, whose lines 1 to `n` parse alike where they
   * exist, give the same slots.
   */
  lemma {:induction false} SlotsAgree(a: seq<Option<ParticleRecord>>, b: seq<Option<ParticleRecord>>, n: nat)
    requires |a| == |b|
    requires forall k :: 1 <= k <= n && k < |a| ==> a[k] == b[k]
    ensures SlotsUpTo(a, n) == SlotsUpTo(b, n)
    decreases n
  {
    if n > 0 {
      SlotsAgree(a, b, n - 1);
      assert SlotMomentum(a, n) == SlotMomentum(b, n);
    }
  }

  /** The header line, line 0, is never parsed: replacing it changes nothing. */
  lemma HeaderNotParsed(lines: seq<string>, header: string, n: nat)
    requires |lines| > 0
    ensures SlotsUpTo(ParseLines(lines[0 := header]), n) == SlotsUpTo(ParseLines(lines), n)
  {
    var a, b := ParseLines(lines[0 := header]), ParseLines(lines);
    forall k | 1 <= k <= n && k < |a|
      ensures a[k] == b[k]
    {
      assert lines[0 := header][k] == lines[k];
    }
    SlotsAgree(a, b, n);
  }

  /** Lines after line `n` are never looked at. */
  lemma LinesBeyondIgnored(lines: seq<string>, more: seq<string>, n: nat)
    requires n < |lines|
    ensures SlotsUpTo(ParseLines(lines + more), n) == SlotsUpTo(ParseLines(lines), n)
  {
    var a, b := ParseLines(lines + more), ParseLines(lines);
    var a' := a[..|b|];
    forall k | 1 <= k <= n && k < |a'|
      ensures a'[k] == b[k]
    {
      assert (lines + more)[k] == lines[k];
    }
    SlotsAgree(a', b, n);
    PrefixSlots(a, |b|, n);
  }

  /** Slots 1 to `n` read only the first `n + 1` lines. */
  lemma {:induction false} PrefixSlots(a: seq<Option<ParticleRecord>>, len: nat, n: nat)
    requires n < len <= |a|
    ensures SlotsUpTo(a[..len], n) == SlotsUpTo(a, n)
    decreases n
  {
    if n > 0 {
      PrefixSlots(a, len, n - 1);
      assert SlotMomentum(a[..len], n) == SlotMomentum(a, n);
    }
  }

  // ------------------------------------------------------------- round trip

  function RenderedLines(rs: seq<ParticleRecord>): (ls: seq<string>)
    ensures |ls| == |rs|
  {
    seq(|rs|, k requires 0 <= k < |rs| => RenderFields(rs[k]))
  }

  function Momenta(rs: seq<ParticleRecord>): (ps: seq<FourMomentum>)
    ensures |ps| == |rs|
  {
    seq(|rs|, k requires 0 <= k < |rs| => MomentumOf(rs[k]))
  }

  /** A rendered particle line holds no line break and is not empty. */
  lemma RenderedLineShape(r: ParticleRecord)
    requires WellFormed(r)
    ensures '\n' !in RenderFields(r) && RenderFields(r) != ""
  {
    var ws := Fields(r);
    forall k | 0 <= k < |ws|
      ensures '\n' !in ws[k]
    {
      assert IsWord(ws[k]);
      forall t | 0 <= t < |ws[k]|
        ensures ws[k][t] != '\n'
      {
        assert !IsSpace(ws[k][t]);
      }
    }
    NotInJoin(ws, ' ', '\n');
    assert IsWord(ws[0]);
    assert Join(ws, ' ') == ws[0] + " " + Join(ws[1..], ' ');
  }

  /** A rendered line on its own parses back to its record. */
  lemma RenderedLineAlone(r: ParticleRecord, line: string)
    requires WellFormed(r) && line == RenderFields(r)
    ensures ParseParticleLine(line) == Some(r)
  {
    RenderedLineMatchesAtStart(r, "", "");
    assert "" + RenderFields(r) + "" == line;
    assert MatchesAt(line, 0);
  }

  /** Each rendered line parses back to its record. */
  lemma RenderedLinesParse(header: string, rs: seq<ParticleRecord>)
    requires forall k :: 0 <= k < |rs| ==> WellFormed(rs[k])
    ensures forall k :: 1 <= k <= |rs| ==> ParseLines([header] + RenderedLines(rs))[k] == Some(rs[k - 1])
  {
    var lines := [header] + RenderedLines(rs);
    forall k | 1 <= k <= |rs|
      ensures ParseLines(lines)[k] == Some(rs[k - 1])
    {
      RenderedLineAlone(rs[k - 1], lines[k]);
    }
  }

  lemma {:induction false} SlotsOfParsed(parsed: seq<Option<ParticleRecord>>, rs: seq<ParticleRecord>, n: nat)
    requires n <= |rs| && |parsed| == |rs| + 1
    requires forall k :: 1 <= k <= |rs| ==> parsed[k] == Some(rs[k - 1])
    ensures SlotsUpTo(parsed, n) == Ok(Momenta(rs)[..n])
    decreases n
  {
    if n > 0 {
      SlotsOfParsed(parsed, rs, n - 1);
      assert SlotMomentum(parsed, n) == Ok(MomentumOf(rs[n - 1]));
      assert Momenta(rs)[..n - 1] + [MomentumOf(rs[n - 1])] == Momenta(rs)[..n];
    }
  }

  /** Such an entry splits at its line breaks back into the header and the lines. */
  lemma RenderedPartsSplit(header: string, rs: seq<ParticleRecord>)
    requires '\n' !in header && rs != []
    requires forall k :: 0 <= k < |rs| ==> WellFormed(rs[k])
    ensures SplitLines(Join([header] + RenderedLines(rs), '\n')) == [header] + RenderedLines(rs)
  {
    var parts := [header] + RenderedLines(rs);
    forall k | 0 <= k < |parts|
      ensures '\n' !in parts[k]
    {
      if k > 0 {
        RenderedLineShape(rs[k - 1]);
      }
    }
    RenderedLineShape(rs[|rs| - 1]);
    JavaSplitJoin(parts, '\n');
  }

  /**
   * An entry made of a header line and one rendered particle line per record yields the
   * records' momenta, in order.
   */
  lemma RenderedEventParses(header: string, rs: seq<ParticleRecord>)
    requires '\n' !in header
    requires forall k :: 0 <= k < |rs| ==> WellFormed(rs[k])
    ensures EventMomenta(Join([header] + RenderedLines(rs), '\n'), |rs|) == Ok(Momenta(rs))
  {
    var parts := [header] + RenderedLines(rs);
    if rs == [] {
      assert Momenta(rs) == [];
    } else {
      RenderedPartsSplit(header, rs);
      RenderedSlots(header, rs);
    }
  }

  lemma WholePrefix(ps: seq<FourMomentum>)
    ensures ps[..|ps|] == ps
  {
  }

  /** The slots of the header and the rendered lines are the records' momenta. */
  lemma RenderedSlots(header: string, rs: seq<ParticleRecord>)
    requires forall k :: 0 <= k < |rs| ==> WellFormed(rs[k])
    ensures SlotsUpTo(ParseLines([header] + RenderedLines(rs)), |rs|) == Ok(Momenta(rs))
  {
    RenderedLinesParse(header, rs);
    SlotsOfParsed(ParseLines([header] + RenderedLines(rs)), rs, |rs|);
    WholePrefix(Momenta(rs));
  }

  // ------------------------------------------------------------- all events

  /** Each entry's momenta, or the error its own slots stop at. */
  function EventResults(entries: seq<string>, m: nat): (rs: seq<Result<seq<FourMomentum>, Failure>>)
    ensures |rs| == |entries|
  {
    seq(|entries|, e requires 0 <= e < |entries| => EventMomenta(entries[e], m))
  }

  /** `rows` are the momenta of the first `|rows|` entries, in order. */
  predicate RowsAre(results: seq<Result<seq<FourMomentum>, Failure>>, rows: seq<seq<FourMomentum>>) {
    forall e :: 0 <= e < |rows| ==> e < |results| && results[e] == Ok(rows[e])
  }

  /** The momenta of the first `n` entries, stopping at the first entry that fails. */
  function RowsUpTo(results: seq<Result<seq<FourMomentum>, Failure>>, n: nat): (r: Result<seq<seq<FourMomentum>>, Failure>)
    requires n <= |results|
    ensures r.Ok? ==> |r.value| == n && RowsAre(results, r.value)
    decreases n
  {
    if n == 0 then Ok([])
    else match RowsUpTo(results, n - 1)
      case Err(f) => Err(f)
      case Ok(rows) =>
        match results[n - 1]
        case Err(f) => Err(f)
        case Ok(ps) => Ok(rows + [ps])
  }

  /** An entry that reads adds its momenta as the next row. */
  lemma RowsUpToNext(results: seq<Result<seq<FourMomentum>, Failure>>, e: nat, rows: seq<seq<FourMomentum>>,
                     ps: seq<FourMomentum>)
    requires e < |results| && RowsUpTo(results, e) == Ok(rows) && results[e] == Ok(ps)
    ensures RowsUpTo(results, e + 1) == Ok(rows + [ps])
  {
  }

  /** An entry that fails after the earlier ones read stops the events with its error. */
  lemma RowsUpToFails(results: seq<Result<seq<FourMomentum>, Failure>>, e: nat, rows: seq<seq<FourMomentum>>,
                      f: Failure)
    requires e < |results| && RowsUpTo(results, e) == Ok(rows) && results[e] == Err(f)
    ensures RowsUpTo(results, e + 1) == Err(f)
  {
  }

  /** Once an entry fails, the later entries are never read: the error stays. */
  lemma {:induction false} RowsUpToStops(results: seq<Result<seq<FourMomentum>, Failure>>, e: nat, n: nat)
    requires e <= n <= |results| && RowsUpTo(results, e).Err?
    ensures RowsUpTo(results, n) == RowsUpTo(results, e)
    decreases n
  {
    if e < n {
      RowsUpToStops(results, e, n - 1);
    }
  }

  /** Every event has `m` particle momenta. */
  predicate Rectangular(rows: seq<seq<FourMomentum>>, m: nat) {
    forall e :: 0 <= e < |rows| ==> |rows[e]| == m
  }

  /** Every entry's momenta, entry `e` at index `e`: the rows of the momenta table. */
  function MomentaRows(entries: seq<string>, m: nat): (r: Result<seq<seq<FourMomentum>>, Failure>)
    ensures r.Ok? ==> |r.value| == |entries| && Rectangular(r.value, m)
  {
    var results := EventResults(entries, m);
    var r := RowsUpTo(results, |entries|);
    if r.Ok? then
      assert forall e :: 0 <= e < |entries| ==> results[e] == EventMomenta(entries[e], m);
      r
    else r
  }

  /**
   * The entries succeed together, or the first entry that fails decides the error: the
   * loops stop at the first failing slot of the first failing entry.
   */
  lemma {:induction false} RowsUpToMeaning(results: seq<Result<seq<FourMomentum>, Failure>>, n: nat)
    requires n <= |results|
    ensures RowsUpTo(results, n).Ok? <==> forall e :: 0 <= e < n ==> results[e].Ok?
    ensures RowsUpTo(results, n).Err? ==>
              exists e :: && 0 <= e < n
                          && results[e] == Err(RowsUpTo(results, n).error)
                          && forall d :: 0 <= d < e ==> results[d].Ok?
    decreases n
  {
    if n > 0 {
      RowsUpToMeaning(results, n - 1);
    }
  }

  /**
   * The rows of the table: every entry succeeds and row `e` is entry `e`'s momenta, or
   * the error is that of the first entry that fails, all entries before it succeeding.
   */
  lemma MomentaRowsMeaning(entries: seq<string>, m: nat)
    ensures MomentaRows(entries, m).Ok? <==> forall e :: 0 <= e < |entries| ==> EventMomenta(entries[e], m).Ok?
    ensures MomentaRows(entries, m).Ok? ==>
              && |MomentaRows(entries, m).value| == |entries|
              && forall e :: 0 <= e < |entries| ==> EventMomenta(entries[e], m) == Ok(MomentaRows(entries, m).value[e])
    ensures MomentaRows(entries, m).Err? ==>
              exists e :: && 0 <= e < |entries|
                          && EventMomenta(entries[e], m) == Err(MomentaRows(entries, m).error)
                          && forall d :: 0 <= d < e ==> EventMomenta(entries[d], m).Ok?
  {
    var results := EventResults(entries, m);
    RowsUpToMeaning(results, |entries|);
    assert forall e :: 0 <= e < |entries| ==> results[e] == EventMomenta(entries[e], m);
  }
}
