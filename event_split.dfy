/**
 * Splitting the event block into event entries, as the DOTALL regex
 * `<event>([^<>]+).*?</event>` does when `find()` is called until it fails: each entry is
 * group 1 of a match, trimmed.
 */
module EventSplit {
  import opened Wrappers
  import opened Text

  const EventOpen := "<event>"
  const EventClose := "</event>"

  predicate IsAngle(c: char) {
    c == '<' || c == '>'
  }

  predicate AngleFree(s: string) {
    forall k :: 0 <= k < |s| ==> !IsAngle(s[k])
  }

  /** The end of the greedy run `[^<>]*` that starts at `j`. */
  function RunEnd(s: string, j: nat): (k: nat)
    requires j <= |s|
    ensures j <= k <= |s|
    ensures forall t :: j <= t < k ==> !IsAngle(s[t])
    ensures k < |s| ==> IsAngle(s[k])
    decreases |s| - j
  {
    if j < |s| && !IsAngle(s[j]) then RunEnd(s, j + 1) else j
  }

  /**
   * One match: `<event>` at `start`, group 1 is `s[start + 7..groupEnd]`, and the match
   * ends at `end`, just after its `</event>`.
   */
  datatype EventMatch = EventMatch(start: nat, groupEnd: nat, end: nat)

  /** A match's parts lie in order inside the text, the group not empty. */
  predicate Spans(s: string, m: EventMatch) {
    m.start + |EventOpen| < m.groupEnd && m.groupEnd + |EventClose| <= m.end <= |s|
  }

  /**
   * The regex tried at position `i`. The greedy group takes the whole run of characters
   * other than `<` and `>` (a shorter run cannot reach a `</event>` any sooner), and the
   * lazy `.*?` stops at the first `</event>` after it.
   */
  function MatchAt(s: string, i: nat): (r: Option<EventMatch>)
    ensures r.Some? ==> r.value.start == i && Spans(s, r.value)
  {
    if !OccursAt(s, EventOpen, i) then None
    else
      var k := RunEnd(s, i + |EventOpen|);
      if k == i + |EventOpen| then None
      else match FindFirst(s, EventClose, k)
        case None => None
        case Some(f) => Some(EventMatch(i, k, f + |EventClose|))
  }

  /**
   * What a match at `i` consists of: `<event>`, a non-empty group free of `<` and `>` that
   * stops right before one of them, and everything up to and including the first
   * `</event>` after the group. The regex fails at `i` exactly when there is no `<event>`
   * there, the group would be empty, or no `</event>` follows it.
   */
  lemma MatchAtMeaning(s: string, i: nat)
    ensures var r := MatchAt(s, i);
            r.Some? ==>
              && OccursAt(s, EventOpen, i)
              && AngleFree(s[i + |EventOpen|..r.value.groupEnd])
              && IsAngle(s[r.value.groupEnd])
              && OccursAt(s, EventClose, r.value.end - |EventClose|)
              && (forall f :: r.value.groupEnd <= f < r.value.end - |EventClose| ==>
                                !OccursAt(s, EventClose, f))
    ensures MatchAt(s, i).None? ==>
              || !OccursAt(s, EventOpen, i)
              || RunEnd(s, i + |EventOpen|) == i + |EventOpen|
              || (forall f :: RunEnd(s, i + |EventOpen|) <= f ==> !OccursAt(s, EventClose, f))
  {
  }

  /** What `find()` returns when it resumes at `from`: the leftmost match there or later. */
  function FindEvent(s: string, from: nat): (r: Option<EventMatch>)
    ensures r.Some? ==> from <= r.value.start && Spans(s, r.value)
    decreases |s| - from
  {
    if |s| <= from then None
    else match MatchAt(s, from)
      case Some(m) => Some(m)
      case None => FindEvent(s, from + 1)
  }

  /**
   * `find()` reports the leftmost position from `from` on where the regex matches, and
   * fails only when it matches nowhere from there on.
   */
  lemma FindEventMeaning(s: string, from: nat)
    ensures var r := FindEvent(s, from);
            r.Some? ==> from <= r.value.start && MatchAt(s, r.value.start) == r
    ensures var r := FindEvent(s, from);
            r.Some? ==> forall i: nat :: from <= i < r.value.start ==> MatchAt(s, i).None?
    ensures FindEvent(s, from).None? ==> forall i: nat :: from <= i ==> MatchAt(s, i).None?
  {
    FindEventFound(s, from);
    FindEventLeftmost(s, from);
    FindEventNone(s, from);
  }

  lemma {:induction false} FindEventFound(s: string, from: nat)
    ensures var r := FindEvent(s, from);
            r.Some? ==> MatchAt(s, r.value.start) == r
    decreases |s| - from
  {
    if from < |s| && MatchAt(s, from).None? {
      FindEventFound(s, from + 1);
    }
  }

  lemma {:induction false} FindEventLeftmost(s: string, from: nat)
    ensures var r := FindEvent(s, from);
            r.Some? ==> forall i: nat :: from <= i < r.value.start ==> MatchAt(s, i).None?
    decreases |s| - from
  {
    var r := FindEvent(s, from);
    if from < |s| && MatchAt(s, from).None? {
      FindEventLeftmost(s, from + 1);
      if r.Some? {
        forall i: nat | from <= i < r.value.start
          ensures MatchAt(s, i).None?
        {
          if i > from {
            assert from + 1 <= i < FindEvent(s, from + 1).value.start;
          }
        }
      }
    }
  }

  lemma {:induction false} FindEventNone(s: string, from: nat)
    ensures FindEvent(s, from).None? ==> forall i: nat :: from <= i ==> MatchAt(s, i).None?
    decreases |s| - from
  {
    if |s| <= from {
      forall i: nat | from <= i
        ensures MatchAt(s, i).None?
      {
        assert !OccursAt(s, EventOpen, i);
      }
    } else if MatchAt(s, from).None? {
      FindEventNone(s, from + 1);
    }
  }

  /** Every match `find()` reports when called repeatedly from `from` on. */
  function Matches(s: string, from: nat): (ms: seq<EventMatch>)
    ensures forall k :: 0 <= k < |ms| ==> from <= ms[k].start && Spans(s, ms[k])
    decreases |s| - from
  {
    match FindEvent(s, from)
    case None => []
    case Some(m) =>
      [m] + Matches(s, m.end)
  }

  /** Each match ends no later than the next one starts. */
  predicate InOrder(ms: seq<EventMatch>) {
    forall k :: 0 <= k < |ms| - 1 ==> ms[k].end <= ms[k + 1].start
  }

  /** The matches come in document order and do not overlap. */
  lemma {:induction false} MatchesInOrder(s: string, from: nat)
    ensures InOrder(Matches(s, from))
    decreases |s| - from
  {
    var found := FindEvent(s, from);
    if found.Some? {
      var m := found.value;
      var rest := Matches(s, m.end);
      MatchesInOrder(s, m.end);
      assert Matches(s, from) == [m] + rest;
      assert rest != [] ==> m.end <= rest[0].start;
      ConsInOrder(m, rest);
    }
  }

  lemma ConsInOrder(m: EventMatch, rest: seq<EventMatch>)
    requires InOrder(rest)
    requires rest != [] ==> m.end <= rest[0].start
    ensures InOrder([m] + rest)
  {
    var ms := [m] + rest;
    forall k | 0 <= k < |ms| - 1
      ensures ms[k].end <= ms[k + 1].start
    {
      if k > 0 {
        assert ms[k] == rest[k - 1] && ms[k + 1] == rest[k];
      }
    }
  }

  /** The entry a match contributes: group 1, trimmed. */
  function Entry(s: string, m: EventMatch): (e: string)
    requires Spans(s, m)
    ensures IsTrimmed(e)
  {
    Trim(s[m.start + |EventOpen|..m.groupEnd])
  }

  /** The entry of a match whose group is `g`. */
  lemma EntryOf(s: string, m: EventMatch, g: string)
    requires Spans(s, m) && s[m.start + |EventOpen|..m.groupEnd] == g
    ensures Entry(s, m) == Trim(g)
  {
  }

  function Entries(s: string, ms: seq<EventMatch>): (es: seq<string>)
    requires forall k :: 0 <= k < |ms| ==> Spans(s, ms[k])
    ensures |es| == |ms|
  {
    seq(|ms|, k requires 0 <= k < |ms| => Entry(s, ms[k]))
  }

  /** The entries of the event block, in document order. */
  function Events(block: string): (es: seq<string>)
    ensures forall k :: 0 <= k < |es| ==> IsTrimmed(es[k])
  {
    Entries(block, Matches(block, 0))
  }

  /** A block yields no entry exactly when the regex matches nowhere in it. */
  lemma NoEvents(block: string)
    ensures Events(block) == [] <==> forall i: nat :: MatchAt(block, i).None?
  {
    FindEventMeaning(block, 0);
    var r := FindEvent(block, 0);
    if r.Some? {
      assert Matches(block, 0) == [r.value] + Matches(block, r.value.end);
    }
  }

  /** `m` is the match the regex makes at `m.start`. */
  predicate IsMatch(s: string, m: EventMatch) {
    MatchAt(s, m.start) == Some(m)
  }

  predicate AllMatch(s: string, ms: seq<EventMatch>) {
    forall k :: 0 <= k < |ms| ==> IsMatch(s, ms[k])
  }

  /** Every reported match is one the regex makes at its start position. */
  lemma {:induction false} MatchesAreMatches(s: string, from: nat)
    ensures AllMatch(s, Matches(s, from))
    decreases |s| - from
  {
    var found := FindEvent(s, from);
    FindEventMeaning(s, from);
    if found.Some? {
      var m := found.value;
      MatchesAreMatches(s, m.end);
      ConsMatches(s, m, Matches(s, m.end));
    }
  }

  lemma ConsMatches(s: string, m: EventMatch, rest: seq<EventMatch>)
    requires IsMatch(s, m) && AllMatch(s, rest)
    ensures AllMatch(s, [m] + rest)
  {
    var ms := [m] + rest;
    forall k | 0 <= k < |ms|
      ensures IsMatch(s, ms[k])
    {
      if k > 0 {
        assert ms[k] == rest[k - 1];
      }
    }
  }

  /** No entry holds `<` or `>`: group 1 is a run of other characters. */
  lemma EventsAngleFree(block: string)
    ensures forall k :: 0 <= k < |Events(block)| ==> AngleFree(Events(block)[k])
  {
    var ms := Matches(block, 0);
    MatchesAreMatches(block, 0);
    forall k | 0 <= k < |ms|
      ensures AngleFree(Events(block)[k])
    {
      var m := ms[k];
      MatchAtMeaning(block, m.start);
      var g := block[m.start + |EventOpen|..m.groupEnd];
      assert Events(block)[k] == Trim(g);
      TrimIsSlice(g);
    }
  }

  // ------------------------------------------------------------------ round trip

  /**
   * What may follow an event's content before its `</event>`: nothing, or text that opens
   * with `<` (an embedded element such as `<mgrwt>`) and holds no `</event>` of its own.
   */
  predicate IsEventTail(x: string) {
    && (x == [] || x[0] == '<')
    && forall q :: 0 <= q < |x| ==> !OccursAt(x + EventClose, EventClose, q)
  }

  /**
   * A block laid out as `seps[0] <event>cs[0]xs[0]</event> seps[1] ... seps[n]`: event
   * contents `cs`, each followed by its tail `xs`, between separators `seps`.
   */
  function Wrapped(seps: seq<string>, cs: seq<string>, xs: seq<string>): string
    requires |seps| == |cs| + 1 && |xs| == |cs|
    decreases |cs|
  {
    if cs == [] then seps[0]
    else seps[0] + (EventOpen + cs[0] + xs[0] + EventClose) + Wrapped(seps[1..], cs[1..], xs[1..])
  }

  /** `find()` reports the match at `i` when no earlier position from `from` on matches. */
  lemma {:induction false} FindEventAt(s: string, from: nat, i: nat)
    requires from <= i && MatchAt(s, i).Some?
    requires forall q: nat :: from <= q < i ==> MatchAt(s, q).None?
    ensures FindEvent(s, from) == MatchAt(s, i)
    decreases i - from
  {
    if from < i {
      FindEventAt(s, from + 1, i);
    }
  }

  /** With no `<` at or after `from`, `find()` fails. */
  lemma {:induction false} NoEventWithoutAngle(s: string, from: nat)
    requires forall q :: from <= q < |s| ==> s[q] != '<'
    ensures FindEvent(s, from) == None
    decreases |s| - from
  {
    if from < |s| {
      assert !OccursAt(s, EventOpen, from) by {
        assert s[from] != EventOpen[0];
      }
      NoEventWithoutAngle(s, from + 1);
    }
  }

  /** The greedy run stops at the first `<` or `>`. */
  lemma {:induction false} RunEndAt(s: string, j: nat, k: nat)
    requires j <= k < |s| && IsAngle(s[k])
    requires forall t :: j <= t < k ==> !IsAngle(s[t])
    ensures RunEnd(s, j) == k
    decreases k - j
  {
    if j < k {
      RunEndAt(s, j + 1, k);
    }
  }

  /** After a tail, the lazy `.*?` stops at the `</event>` that closes it. */
  lemma TailCloses(s: string, k: nat, x: string)
    requires IsEventTail(x)
    requires k + |x| + |EventClose| <= |s| && s[k..k + |x| + |EventClose|] == x + EventClose
    ensures FindFirst(s, EventClose, k) == Some(k + |x|)
  {
    var y := x + EventClose;
    assert OccursAt(s, EventClose, k + |x|) by {
      assert s[k + |x|..k + |x| + |EventClose|] == y[|x|..];
    }
    forall q | k <= q < k + |x|
      ensures !OccursAt(s, EventClose, q)
    {
      TailHasNoClose(x, q - k);
      assert s[q..q + |EventClose|] == y[q - k..q - k + |EventClose|];
    }
  }

  /** No `</event>` starts inside a tail, even one that runs on into the closing tag. */
  lemma TailHasNoClose(x: string, q: nat)
    requires IsEventTail(x) && q < |x|
    ensures !OccursAt(x + EventClose, EventClose, q)
  {
  }

  /**
   * The regex matches exactly `<event>cx</event>` where the text holds that, `c` free of
   * angles and `x` a tail: group 1 is `c`.
   */
  lemma MatchAtEvent(s: string, i: nat, c: string, x: string)
    requires c != [] && AngleFree(c) && IsEventTail(x)
    requires OccursAt(s, EventOpen + c + x + EventClose, i)
    ensures MatchAt(s, i) ==
            Some(EventMatch(i, i + |EventOpen| + |c|, i + |EventOpen| + |c| + |x| + |EventClose|))
    ensures s[i + |EventOpen|..i + |EventOpen| + |c|] == c
  {
    var k := i + |EventOpen| + |c|;
    EventParts(s, i, c, x);
    TailCloses(s, k, x);
    forall t | i + |EventOpen| <= t < k
      ensures !IsAngle(s[t])
    {
      assert s[t] == c[t - i - |EventOpen|];
    }
    assert s[k] == (x + EventClose)[0] == '<';
    RunEndAt(s, i + |EventOpen|, k);
  }

  /** The pieces of an `<event>cx</event>` in the text: the opening tag, `c`, then the rest. */
  lemma EventParts(s: string, i: nat, c: string, x: string)
    requires OccursAt(s, EventOpen + c + x + EventClose, i)
    ensures OccursAt(s, EventOpen, i)
    ensures s[i + |EventOpen|..i + |EventOpen| + |c|] == c
    ensures var k := i + |EventOpen| + |c|; k + |x + EventClose| <= |s| && s[k..k + |x + EventClose|] == x + EventClose
  {
    var k := i + |EventOpen| + |c|;
    var w := EventOpen + c + x + EventClose;
    var y := x + EventClose;
    assert s[i..i + |w|] == w;
    forall t | 0 <= t < |c|
      ensures s[i + |EventOpen| + t] == c[t]
    {
      assert s[i + |EventOpen| + t] == w[|EventOpen| + t];
    }
    assert s[i + |EventOpen|..k] == c;
    assert OccursAt(s, EventOpen, i) by {
      assert s[i..i + |EventOpen|] == w[..|EventOpen|];
    }
    forall t | 0 <= t < |y|
      ensures s[k + t] == y[t]
    {
      assert s[k + t] == w[|EventOpen| + |c| + t];
    }
    assert s[k..k + |y|] == y;
  }

  /** How the text around one laid-out event decomposes. */
  lemma LaidOut(pre: string, sep: string, w: string, tail: string)
    requires '<' !in sep
    ensures pre + (sep + w + tail) == (pre + sep + w) + tail
    ensures OccursAt((pre + sep + w) + tail, w, |pre| + |sep|)
    ensures forall q :: |pre| <= q < |pre| + |sep| ==> ((pre + sep + w) + tail)[q] != '<'
  {
    var s := (pre + sep + w) + tail;
    assert s == (pre + sep + w) + tail;
    assert s[|pre| + |sep|..|pre| + |sep| + |w|] == w;
    forall q | |pre| <= q < |pre| + |sep|
      ensures s[q] != '<'
    {
      assert s[q] == sep[q - |pre|];
    }
  }

  /**
   * `find()` from `from` reports `<event>cx</event>` at `i` when no `<` comes between
   * `from` and `i`.
   */
  lemma FirstEventAfter(s: string, from: nat, i: nat, c: string, x: string)
    requires c != [] && AngleFree(c) && IsEventTail(x)
    requires OccursAt(s, EventOpen + c + x + EventClose, i)
    requires from <= i && forall q :: from <= q < i ==> s[q] != '<'
    ensures FindEvent(s, from) ==
            Some(EventMatch(i, i + |EventOpen| + |c|, i + |EventOpen| + |c| + |x| + |EventClose|))
    ensures s[i + |EventOpen|..i + |EventOpen| + |c|] == c
  {
    MatchAtEvent(s, i, c, x);
    forall q: nat | from <= q < i
      ensures MatchAt(s, q).None?
    {
      NoMatchWithoutAngle(s, q);
    }
    FindEventAt(s, from, i);
  }

  /** No match starts at a character other than `<`. */
  lemma NoMatchWithoutAngle(s: string, q: nat)
    requires q < |s| && s[q] != '<'
    ensures MatchAt(s, q).None?
  {
    assert !OccursAt(s, EventOpen, q) by {
      assert s[q] != EventOpen[0];
    }
  }

  lemma MatchesStep(s: string, from: nat, m: EventMatch)
    requires FindEvent(s, from) == Some(m)
    ensures Matches(s, from) == [m] + Matches(s, m.end)
  {
  }

  /** Each content, trimmed. */
  function TrimAll(cs: seq<string>): (ts: seq<string>)
    ensures |ts| == |cs|
    ensures forall k :: 0 <= k < |cs| ==> ts[k] == Trim(cs[k])
  {
    if cs == [] then [] else [Trim(cs[0])] + TrimAll(cs[1..])
  }

  lemma EntriesCons(s: string, m: EventMatch, rest: seq<EventMatch>)
    requires Spans(s, m)
    requires forall k :: 0 <= k < |rest| ==> Spans(s, rest[k])
    ensures Entries(s, [m] + rest) == [Entry(s, m)] + Entries(s, rest)
  {
  }

  /** The conditions under which a block laid out by `Wrapped` splits back into its contents. */
  predicate Layable(seps: seq<string>, cs: seq<string>, xs: seq<string>) {
    && |seps| == |cs| + 1 && |xs| == |cs|
    && (forall k :: 0 <= k < |seps| ==> '<' !in seps[k])
    && (forall k :: 0 <= k < |cs| ==> cs[k] != [] && AngleFree(cs[k]))
    && forall k :: 0 <= k < |xs| ==> IsEventTail(xs[k])
  }

  /**
   * Splitting a block laid out from event contents free of `<` and `>`, each followed by a
   * tail, between separators free of `<`, gives back each content, trimmed, in order.
   */
  lemma {:induction false} WrappedEventsFrom(pre: string, seps: seq<string>, cs: seq<string>, xs: seq<string>)
    requires Layable(seps, cs, xs)
    ensures var s := pre + Wrapped(seps, cs, xs);
            Entries(s, Matches(s, |pre|)) == TrimAll(cs)
    decreases |cs|
  {
    var s := pre + Wrapped(seps, cs, xs);
    if cs == [] {
      NoEventWithoutAngle(s, |pre|);
    } else {
      var w := EventOpen + cs[0] + xs[0] + EventClose;
      var tail := Wrapped(seps[1..], cs[1..], xs[1..]);
      assert Layable(seps[1..], cs[1..], xs[1..]);
      WrappedEventsFrom(pre + seps[0] + w, seps[1..], cs[1..], xs[1..]);
      WrappedStep(pre, seps[0], cs[0], xs[0], tail, TrimAll(cs[1..]));
    }
  }

  /** The event after a separator comes first, then those of the rest of the block. */
  lemma WrappedStep(pre: string, sep: string, c: string, x: string, tail: string, ts: seq<string>)
    requires '<' !in sep
    requires c != [] && AngleFree(c) && IsEventTail(x)
    requires var pre' := pre + sep + (EventOpen + c + x + EventClose);
             Entries(pre' + tail, Matches(pre' + tail, |pre'|)) == ts
    ensures var s := pre + (sep + (EventOpen + c + x + EventClose) + tail);
            Entries(s, Matches(s, |pre|)) == [Trim(c)] + ts
  {
    var w := EventOpen + c + x + EventClose;
    var pre' := pre + sep + w;
    LaidOut(pre, sep, w, tail);
    EventStep(pre' + tail, |pre|, |pre| + |sep|, |pre'|, c, x, ts);
  }

  /**
   * Where `<event>cx</event>` sits at `i` with no `<` between `from` and `i`, the entries
   * from `from` on are `c`, trimmed, then the entries after that event.
   */
  lemma EventStep(s: string, from: nat, i: nat, after: nat, c: string, x: string, ts: seq<string>)
    requires c != [] && AngleFree(c) && IsEventTail(x)
    requires OccursAt(s, EventOpen + c + x + EventClose, i)
    requires after == i + |EventOpen + c + x + EventClose|
    requires from <= i && forall q :: from <= q < i ==> s[q] != '<'
    requires Entries(s, Matches(s, after)) == ts
    ensures Entries(s, Matches(s, from)) == [Trim(c)] + ts
  {
    FirstEventAfter(s, from, i, c, x);
    var m := EventMatch(i, i + |EventOpen| + |c|, i + |EventOpen| + |c| + |x| + |EventClose|);
    assert m.end == after;
    MatchesStep(s, from, m);
    EntryOf(s, m, c);
    EntriesCons(s, m, Matches(s, after));
  }

  /**
   * The events of a laid-out block are its event contents, trimmed, in order; the tails
   * after the contents are not part of any entry.
   */
  lemma WrappedEvents(seps: seq<string>, cs: seq<string>, xs: seq<string>)
    requires Layable(seps, cs, xs)
    ensures Events(Wrapped(seps, cs, xs)) == TrimAll(cs)
  {
    WrappedEventsFrom("", seps, cs, xs);
    assert "" + Wrapped(seps, cs, xs) == Wrapped(seps, cs, xs);
  }
}
