/**
 * The reader's three steps chained on one document: the event block is cut out, split
 * into entries, each entry's particle lines are read, and the momenta table is rendered
 * into one file per particle slot.
 */
module EndToEnd {
  import opened Wrappers
  import opened Text
  import opened Csv
  import opened ParticleLine
  import opened EventBlock
  import opened EventSplit
  import opened Kinematics
  import opened MomentaExport

  /** The text of one event entry: its header line, then one line per particle. */
  function EntryText(header: string, rs: seq<ParticleRecord>): string {
    Join([header] + RenderedLines(rs), '\n')
  }

  /**
   * An event's content between `<event>` and its tail, as MadGraph writes it: a line
   * break, the entry's lines, a line break.
   */
  function Content(header: string, rs: seq<ParticleRecord>): string {
    "\n" + EntryText(header, rs) + "\n"
  }

  /**
   * An entry as MadGraph writes it: a one-line header, records the particle-line pattern
   * accepts, and text with no `<` or `>` and nothing to trim at either end.
   */
  predicate EventHolds(header: string, rs: seq<ParticleRecord>) {
    && '\n' !in header
    && (forall k :: 0 <= k < |rs| ==> WellFormed(rs[k]))
    && EntryText(header, rs) != [] && IsTrimmed(EntryText(header, rs))
    && AngleFree(EntryText(header, rs))
  }

  /** A document holding the events `headers`/`records`, each followed by its tail. */
  function Document(pre: string, seps: seq<string>, headers: seq<string>, records: seq<seq<ParticleRecord>>,
                    tails: seq<string>, post: string): string
    requires |seps| == |headers| + 1 && |records| == |headers| && |tails| == |headers|
  {
    pre + InitClose + Wrapped(seps, Contents(headers, records), tails) + DocumentClose + post
  }

  function Contents(headers: seq<string>, records: seq<seq<ParticleRecord>>): (cs: seq<string>)
    requires |records| == |headers|
    ensures |cs| == |headers|
  {
    seq(|headers|, e requires 0 <= e < |headers| => Content(headers[e], records[e]))
  }

  /** The momenta table the records give: row `e` is event `e`'s particles in order. */
  function Table(records: seq<seq<ParticleRecord>>): (rows: seq<seq<FourMomentum>>)
    ensures |rows| == |records|
  {
    seq(|records|, e requires 0 <= e < |records| => Momenta(records[e]))
  }

  /**
   * A document whose preamble holds no `</init>\n`, whose trailer holds no
   * `\n</LesHouchesEvents>`, and whose block lays out events for `m` particles between
   * `<`-free separators, each event's content followed by a tail such as an `<mgrwt>`
   * element, is read into `m` files: file `i` is named after slot `i + 1` in `dir` and,
   * after its header, holds in row `e` the E, px, py and pz of particle `i` of event `e`.
   */
  lemma DocumentRoundTrip(pre: string, seps: seq<string>, headers: seq<string>,
                          records: seq<seq<ParticleRecord>>, tails: seq<string>, post: string,
                          m: nat, dir: string)
    requires forall i :: !OccursAt(pre, InitClose, i)
    requires forall j :: !OccursAt(post, DocumentClose, j)
    requires |seps| == |headers| + 1 && |records| == |headers| && |tails| == |headers|
    requires forall k :: 0 <= k < |seps| ==> '<' !in seps[k]
    requires forall k :: 0 <= k < |tails| ==> IsEventTail(tails[k])
    requires forall e :: 0 <= e < |records| ==> |records[e]| == m
    requires forall e :: 0 <= e < |headers| ==> EventHolds(headers[e], records[e])
    ensures var doc := Document(pre, seps, headers, records, tails, post);
            && ExtractBlock(doc).Some?
            && |Events(ExtractBlock(doc).value)| == |headers|
            && MomentaRows(Events(ExtractBlock(doc).value), m) == Ok(Table(records))
    ensures var files := MomentaFiles([dir], m, Table(records));
            && |files| == m
            && forall i :: 0 <= i < m ==>
                 && files[i].name == FileName(dir, i)
                 && |files[i].lines| == |headers| + 1
                 && files[i].lines[0] == MomentaHeader
                 && forall e :: 0 <= e < |headers| ==>
                      var r := records[e][i];
                      files[i].lines[e + 1] == Row([r.energy, r.px, r.py, r.pz])
  {
    var body := Wrapped(seps, Contents(headers, records), tails);
    BlockRoundTrip(pre, body, post);
    EntriesOfDocument(seps, headers, records, tails);
    var es := seq(|headers|, e requires 0 <= e < |headers| => EntryText(headers[e], records[e]));
    assert Events(body) == es;
    RowsOfEntries(headers, records, m);
    TableFiles(records, m, dir);
  }

  /** The files rendered from the records' table: row `e` of file `i` is particle `i` of event `e`. */
  lemma TableFiles(records: seq<seq<ParticleRecord>>, m: nat, dir: string)
    requires forall e :: 0 <= e < |records| ==> |records[e]| == m
    ensures var files := MomentaFiles([dir], m, Table(records));
            && |files| == m
            && forall i :: 0 <= i < m ==>
                 && files[i].name == FileName(dir, i)
                 && |files[i].lines| == |records| + 1
                 && files[i].lines[0] == MomentaHeader
                 && forall e :: 0 <= e < |records| ==>
                      var r := records[e][i];
                      files[i].lines[e + 1] == Row([r.energy, r.px, r.py, r.pz])
  {
    var rows := Table(records);
    MomentaFilesContents([dir], m, rows);
  }

  /** The entries of the laid-out block are the entries' texts, in order. */
  lemma EntriesOfDocument(seps: seq<string>, headers: seq<string>, records: seq<seq<ParticleRecord>>,
                          tails: seq<string>)
    requires |seps| == |headers| + 1 && |records| == |headers| && |tails| == |headers|
    requires forall k :: 0 <= k < |seps| ==> '<' !in seps[k]
    requires forall k :: 0 <= k < |tails| ==> IsEventTail(tails[k])
    requires forall e :: 0 <= e < |headers| ==> EventHolds(headers[e], records[e])
    ensures var es := Events(Wrapped(seps, Contents(headers, records), tails));
            && |es| == |headers|
            && forall e :: 0 <= e < |headers| ==> es[e] == EntryText(headers[e], records[e])
  {
    var cs := Contents(headers, records);
    forall e | 0 <= e < |cs|
      ensures cs[e] != [] && AngleFree(cs[e]) && Trim(cs[e]) == EntryText(headers[e], records[e])
    {
      assert EventHolds(headers[e], records[e]);
      ContentShape(headers[e], records[e]);
    }
    assert Layable(seps, cs, tails);
    WrappedEvents(seps, cs, tails);
  }

  /** A content is its entry text between two line breaks: non-empty, free of angles. */
  lemma ContentShape(header: string, rs: seq<ParticleRecord>)
    requires EntryText(header, rs) != [] && IsTrimmed(EntryText(header, rs))
    requires AngleFree(EntryText(header, rs))
    ensures Content(header, rs) != [] && AngleFree(Content(header, rs))
    ensures Trim(Content(header, rs)) == EntryText(header, rs)
  {
    var t := EntryText(header, rs);
    TrimPadded("\n", t, "\n");
    var c := Content(header, rs);
    forall k | 0 <= k < |c|
      ensures !IsAngle(c[k])
    {
      if 0 < k < |c| - 1 {
        assert c[k] == t[k - 1];
      }
    }
  }

  /** Every entry reads back as its records' momenta, so the table is `Table(records)`. */
  lemma RowsOfEntries(headers: seq<string>, records: seq<seq<ParticleRecord>>, m: nat)
    requires |records| == |headers|
    requires forall e :: 0 <= e < |records| ==> |records[e]| == m
    requires forall e :: 0 <= e < |headers| ==> EventHolds(headers[e], records[e])
    ensures var es := seq(|headers|, e requires 0 <= e < |headers| => EntryText(headers[e], records[e]));
            MomentaRows(es, m) == Ok(Table(records))
  {
    var es := seq(|headers|, e requires 0 <= e < |headers| => EntryText(headers[e], records[e]));
    forall e | 0 <= e < |es|
      ensures EventMomenta(es[e], m) == Ok(Table(records)[e])
    {
      assert EventHolds(headers[e], records[e]);
      RenderedEventParses(headers[e], records[e]);
    }
    MomentaRowsMeaning(es, m);
    var rows := MomentaRows(es, m).value;
    assert rows == Table(records) by {
      forall e | 0 <= e < |es|
        ensures rows[e] == Table(records)[e]
      {
        assert EventMomenta(es[e], m) == Ok(rows[e]);
      }
    }
  }
}
