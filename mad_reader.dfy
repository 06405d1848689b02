/**
 * The reader object: it holds the text of an event file and, step by step, the event
 * block, the event entries and the momenta table extracted from it. Each step needs the
 * previous one; where the program throws, the model returns a `Fail` with the reason.
 */
module MadRead {
  import opened Wrappers
  import opened Text
  import opened Failures
  import opened EventBlock
  import opened EventSplit
  import opened Kinematics
  import opened MomentaExport
  import opened Csv
  import ParticleLine

  /** `Arrays.copyOf(a, a.length)`. */
  method CopyOf(a: array<int>) returns (b: array<int>)
    ensures fresh(b) && b[..] == a[..]
  {
    b := new int[a.Length];
    for k := 0 to a.Length
      invariant b[..k] == a[..k]
    {
      b[k] := a[k];
    }
  }

  /**
   * `t[i, e, c]` is component `c` (E, px, py, pz) of particle `i + 1` in event `e`, for
   * the first `events` events.
   */
  predicate TableHolds(t: array3<string>, rows: seq<seq<FourMomentum>>, events: nat)
    reads t
  {
    && events <= |rows| && events <= t.Length1 && t.Length2 == 4
    && (forall e :: 0 <= e < events ==> t.Length0 <= |rows[e]|)
    && forall i, e, c :: 0 <= i < t.Length0 && 0 <= e < events && 0 <= c < 4 ==>
         t[i, e, c] == Components(rows[e][i])[c]
  }

  /** Column `e` of the table holds the momenta `ps` of particles 1 to `n`. */
  predicate ColumnHolds(t: array3<string>, e: nat, ps: seq<FourMomentum>, n: nat)
    reads t
  {
    && n <= t.Length0 && e < t.Length1 && t.Length2 == 4 && n <= |ps|
    && forall i, c :: 0 <= i < n && 0 <= c < 4 ==> t[i, e, c] == Components(ps[i])[c]
  }

  /**
   * What `extractMomenta` leaves behind for the entries `entries` and the `m` particles
   * per event: a table of `m` by `|entries|` by 4, and then either the first failure (and
   * nothing written) or the momenta of every entry in the table and the files of
   * `MomentaFiles`.
   */
  predicate MomentaOutcome(entries: seq<string>, m: nat, path: seq<string>, t: array3<string>,
                           outcome: Outcome<Failure>, files: seq<CsvFile>)
    reads t
  {
    && t.Length0 == m && t.Length1 == |entries| && t.Length2 == 4
    && match MomentaRows(entries, m)
       case Err(f) => outcome == Fail(f) && files == []
       case Ok(rows) =>
         && outcome == Pass
         && TableHolds(t, rows, |entries|)
         && files == MomentaFiles(path, m, rows)
  }

  /**
   * The inner loop of `extractMomenta` for entry `entry`, event `e`: lines 1 to `m` of the
   * entry in turn fill column `e`; the first line that is missing or does not parse stops
   * it with that failure. Other columns are left alone.
   */
  method ReadEvent(t: array3<string>, e: nat, entry: string) returns (outcome: Outcome<Failure>, ghost ps: seq<FourMomentum>)
    requires e < t.Length1 && t.Length2 == 4
    modifies t
    ensures outcome.Fail? ==> EventMomenta(entry, t.Length0) == Err(outcome.error)
    ensures outcome.Pass? ==> EventMomenta(entry, t.Length0) == Ok(ps) && ColumnHolds(t, e, ps, t.Length0)
    ensures forall i, d, c :: 0 <= i < t.Length0 && 0 <= d < t.Length1 && d != e && 0 <= c < 4 ==>
              t[i, d, c] == old(t[i, d, c])
  {
    var m := t.Length0;
    var lines := SplitLines(entry);
    ghost var parsed := ParseLines(lines);
    ps := [];
    var i := 1;
    while i <= m
      invariant 1 <= i <= m + 1
      invariant SlotsUpTo(parsed, i - 1) == Ok(ps)
      invariant ColumnHolds(t, e, ps, i - 1)
      invariant forall i', d, c :: 0 <= i' < t.Length0 && 0 <= d < t.Length1 && d != e && 0 <= c < 4 ==>
                  t[i', d, c] == old(t[i', d, c])
    {
      if |lines| <= i {
        outcome := Fail(LineIndexOutOfBounds(i, |lines|));
        SlotsUpToStops(parsed, i, m);
        return;
      }
      var record := ParticleLine.ParseParticleLine(lines[i]);
      ParsedAt(lines, i, record);
      if record.None? {
        outcome := Fail(InvalidKinematicalEntry(i));
        SlotsUpToStops(parsed, i, m);
        return;
      }
      var p := MomentumOf(record.value);
      label Before:
      StoreMomentum(t, i - 1, e, p);
      ps := ps + [p];
      forall i', c | 0 <= i' < i && 0 <= c < 4
        ensures t[i', e, c] == Components(ps[i'])[c]
      {
        if i' < i - 1 {
          assert t[i', e, c] == old@Before(t[i', e, c]);
        }
      }
      i := i + 1;
    }
    outcome := Pass;
  }

  /** Line `i` of an entry is read by the particle line pattern, as `ParseLines` says. */
  lemma ParsedAt(lines: seq<string>, i: nat, record: Option<ParticleLine.ParticleRecord>)
    requires i < |lines| && record == ParticleLine.ParseParticleLine(lines[i])
    ensures ParseLines(lines)[i] == record
  {
  }

  /** The four components of `p` into cells `t[i, e, 0..4]`; no other cell changes. */
  method StoreMomentum(t: array3<string>, i: nat, e: nat, p: FourMomentum)
    requires i < t.Length0 && e < t.Length1 && t.Length2 == 4
    modifies t
    ensures forall c :: 0 <= c < 4 ==> t[i, e, c] == Components(p)[c]
    ensures forall i', d, c :: 0 <= i' < t.Length0 && 0 <= d < t.Length1 && 0 <= c < 4 && (i' != i || d != e) ==>
              t[i', d, c] == old(t[i', d, c])
  {
    t[i, e, 0] := p.energy;
    t[i, e, 1] := p.px;
    t[i, e, 2] := p.py;
    t[i, e, 3] := p.pz;
  }

  /** The `while (mat.find())` loop of `extractEvents`: the trimmed entries, in order. */
  method SplitEvents(block: string) returns (events: seq<string>)
    ensures events == Events(block)
  {
    events := [];
    var from := 0;
    var m := FindEvent(block, from);
    while m.Some?
      invariant from <= |block|
      invariant m == FindEvent(block, from)
      invariant events + Entries(block, Matches(block, from)) == Events(block)
      decreases |block| - from
    {
      var rest := Matches(block, m.value.end);
      assert Matches(block, from) == [m.value] + rest;
      EntriesCons(block, m.value, rest);
      events := events + [Trim(block[m.value.start + |EventOpen|..m.value.groupEnd])];
      from := m.value.end;
      m := FindEvent(block, from);
    }
    assert Entries(block, Matches(block, from)) == [];
  }

  /** Column `e` filled after the first `e`: the first `e + 1` events are in the table. */
  lemma TableStep(t: array3<string>, rows: seq<seq<FourMomentum>>, e: nat, ps: seq<FourMomentum>)
    requires |rows| == e && TableHolds(t, rows, e) && ColumnHolds(t, e, ps, t.Length0)
    ensures TableHolds(t, rows + [ps], e + 1)
  {
  }

  /**
   * One pass of the outer loop: entry `e` fills column `e`, extending the rows read so far,
   * or stops the events with its error.
   */
  method FillColumn(t: array3<string>, entries: seq<string>, e: nat, ghost rows: seq<seq<FourMomentum>>)
      returns (outcome: Outcome<Failure>, ghost ps: seq<FourMomentum>)
    requires t.Length1 == |entries| && t.Length2 == 4 && e < |entries| && |rows| == e
    requires RowsUpTo(EventResults(entries, t.Length0), e) == Ok(rows) && TableHolds(t, rows, e)
    modifies t
    ensures outcome.Fail? ==> RowsUpTo(EventResults(entries, t.Length0), e + 1) == Err(outcome.error)
    ensures outcome.Pass? ==>
              && RowsUpTo(EventResults(entries, t.Length0), e + 1) == Ok(rows + [ps])
              && TableHolds(t, rows + [ps], e + 1)
  {
    ghost var results := EventResults(entries, t.Length0);
    outcome, ps := ReadEvent(t, e, entries[e]);
    assert results[e] == EventMomenta(entries[e], t.Length0);
    if outcome.Fail? {
      RowsUpToFails(results, e, rows, outcome.error);
      return;
    }
    assert TableHolds(t, rows, e);
    TableStep(t, rows, e, ps);
    RowsUpToNext(results, e, rows, ps);
  }

  /**
   * The outer loop of `extractMomenta`: the entries in turn, each filling its column of
   * the table, stopping at the first entry that fails.
   */
  method FillTable(t: array3<string>, entries: seq<string>) returns (outcome: Outcome<Failure>, ghost rows: seq<seq<FourMomentum>>)
    requires t.Length1 == |entries| && t.Length2 == 4
    modifies t
    ensures outcome.Fail? ==> MomentaRows(entries, t.Length0) == Err(outcome.error)
    ensures outcome.Pass? ==> MomentaRows(entries, t.Length0) == Ok(rows) && TableHolds(t, rows, |entries|)
  {
    ghost var results := EventResults(entries, t.Length0);
    rows := [];
    var e := 0;
    while e < |entries|
      invariant 0 <= e <= |entries| && |rows| == e
      invariant RowsUpTo(results, e) == Ok(rows)
      invariant TableHolds(t, rows, e)
    {
      var r, ps := FillColumn(t, entries, e, rows);
      if r.Fail? {
        RowsUpToStops(results, e + 1, |entries|);
        RowsOfTable(entries, t.Length0);
        return r, rows;
      }
      rows := rows + [ps];
      e := e + 1;
    }
    RowsOfTable(entries, t.Length0);
    outcome := Pass;
  }

  /** The rows of all entries are the events read up to the last entry. */
  lemma RowsOfTable(entries: seq<string>, m: nat)
    ensures MomentaRows(entries, m) == RowsUpTo(EventResults(entries, m), |entries|)
  {
  }

  /**
   * The export loop of `extractMomenta`: with a path, one file per particle slot, each the
   * header and that slot's row of the table for every event.
   */
  method WriteMomenta(t: array3<string>, path: seq<string>, ghost rows: seq<seq<FourMomentum>>)
      returns (files: seq<CsvFile>)
    requires |rows| == t.Length1 && Rectangular(rows, t.Length0)
    requires TableHolds(t, rows, |rows|)
    ensures files == MomentaFiles(path, t.Length0, rows)
  {
    if |path| == 0 {
      return [];
    }
    files := [];
    for i := 0 to t.Length0
      invariant |files| == i
      invariant forall k :: 0 <= k < i ==> files[k] == CsvFile(FileName(path[0], k), SlotLines(rows, k))
    {
      var lines := [MomentaHeader];
      for j := 0 to t.Length1
        invariant lines == SlotLines(rows, i)[..j + 1]
      {
        var cells := [t[i, j, 0], t[i, j, 1], t[i, j, 2], t[i, j, 3]];
        assert cells == Components(rows[j][i]);
        lines := lines + [Row(cells)];
        assert SlotLines(rows, i)[..j + 2] == SlotLines(rows, i)[..j + 1] + [Row(cells)];
      }
      assert lines == SlotLines(rows, i);
      files := files + [CsvFile(FileName(path[0], i), lines)];
    }
  }

  class MadReader {
    const reagents: array<int>
    const products: array<int>
    /** The number of reagents and products: the particle lines read per event. */
    const multiplicity: nat
    const eventsText: string
    var eventBlock: Option<string>
    var eventEntries: Option<seq<string>>
    /** `momenta[i, e, c]`: component `c` of particle `i + 1` in event `e`. */
    var momenta: array3?<string>

    /** A reader of the event file text `eventsText`; nothing is parsed yet. */
    constructor (reagents: array<int>, products: array<int>, eventsText: string)
      ensures fresh(this.reagents) && this.reagents[..] == reagents[..]
      ensures fresh(this.products) && this.products[..] == products[..]
      ensures multiplicity == reagents.Length + products.Length
      ensures this.eventsText == eventsText
      ensures eventBlock == None && eventEntries == None && momenta == null
    {
      var r := CopyOf(reagents);
      var p := CopyOf(products);
      this.reagents := r;
      this.products := p;
      multiplicity := reagents.Length + products.Length;
      this.eventsText := eventsText;
      eventBlock := None;
      eventEntries := None;
      momenta := null;
    }

    /** A copy of the reagent codes, which the caller may change freely. */
    method GetReagents() returns (codes: array<int>)
      ensures fresh(codes) && codes[..] == reagents[..]
    {
      codes := CopyOf(reagents);
    }

    /** A copy of the product codes, which the caller may change freely. */
    method GetProducts() returns (codes: array<int>)
      ensures fresh(codes) && codes[..] == products[..]
    {
      codes := CopyOf(products);
    }

    /**
     * Stores the text between the `</init>` line and the last `</LesHouchesEvents>` line;
     * without those markers it fails and stores nothing.
     */
    method ExtractEventBlock() returns (outcome: Outcome<Failure>)
      modifies this
      ensures ExtractBlock(eventsText).None? ==> outcome == Fail(NoEventBlock) && eventBlock == old(eventBlock)
      ensures ExtractBlock(eventsText).Some? ==> outcome == Pass && eventBlock == ExtractBlock(eventsText)
      ensures eventEntries == old(eventEntries) && momenta == old(momenta)
    {
      var found := ExtractBlock(eventsText);
      if found.None? {
        return Fail(NoEventBlock);
      }
      eventBlock := found;
      outcome := Pass;
    }

    /**
     * Stores the trimmed entries of the `<event>` elements of the block, in document
     * order; without a block it fails and stores nothing.
     */
    method ExtractEvents() returns (outcome: Outcome<Failure>)
      modifies this
      ensures old(eventBlock).None? ==> outcome == Fail(BlockNotExtracted) && eventEntries == old(eventEntries)
      ensures old(eventBlock).Some? ==> outcome == Pass && eventEntries == Some(Events(old(eventBlock).value))
      ensures eventBlock == old(eventBlock) && momenta == old(momenta)
    {
      if eventBlock.None? {
        return Fail(BlockNotExtracted);
      }
      var events := SplitEvents(eventBlock.value);
      eventEntries := Some(events);
      outcome := Pass;
    }

    /**
     * Without entries it fails and changes nothing. Otherwise it allocates a fresh
     * momenta table and fills it event by event, stopping at the first entry whose
     * particle lines are missing or malformed; when every entry reads, it writes the
     * files of `MomentaFiles` for `path`.
     */
    method ExtractMomenta(path: seq<string>) returns (outcome: Outcome<Failure>, files: seq<CsvFile>)
      modifies this
      ensures old(eventEntries).None? ==>
                outcome == Fail(EntriesNotIsolated) && files == [] && momenta == old(momenta)
      ensures old(eventEntries).Some? ==>
                && momenta != null && fresh(momenta)
                && MomentaOutcome(old(eventEntries).value, multiplicity, path, momenta, outcome, files)
      ensures eventBlock == old(eventBlock) && eventEntries == old(eventEntries)
    {
      if eventEntries.None? {
        return Fail(EntriesNotIsolated), [];
      }
      var entries := eventEntries.value;
      var t := new string[multiplicity, |entries|, 4];
      momenta := t;
      ghost var rows;
      outcome, rows := FillTable(t, entries);
      if outcome.Fail? {
        return outcome, [];
      }
      files := WriteMomenta(t, path, rows);
    }

    /**
     * The three steps in turn, stopping at the first that fails; with `path` non-empty,
     * the momenta files are written under `path[0]`.
     */
    method Parse(path: seq<string>) returns (outcome: Outcome<Failure>, files: seq<CsvFile>)
      modifies this
      ensures ExtractBlock(eventsText).None? ==>
                && outcome == Fail(NoEventBlock) && files == []
                && eventBlock == old(eventBlock) && eventEntries == old(eventEntries) && momenta == old(momenta)
      ensures ExtractBlock(eventsText).Some? ==>
                && eventBlock == ExtractBlock(eventsText)
                && eventEntries == Some(Events(ExtractBlock(eventsText).value))
                && momenta != null && fresh(momenta)
                && MomentaOutcome(eventEntries.value, multiplicity, path, momenta, outcome, files)
    {
      outcome := ExtractEventBlock();
      if outcome.Fail? {
        return outcome, [];
      }
      outcome := ExtractEvents();
      outcome, files := ExtractMomenta(path);
    }
  }
}
