/**
 * One particle line of an event entry: the 13 columns of a HEPEUP record as the regex of
 * `extractMomenta` reads them with `find()`. Every quantifier of that regex is forced:
 * `\s*` and `\s+` take whole runs of white space and each group takes a whole word
 * (a maximal run of non-`\s` characters), because a shorter choice would leave a
 * character the next part of the pattern cannot start with. What `find()` leaves open is
 * the start position, which it takes leftmost; a match may start inside a word, and
 * whatever follows the thirteenth word is not looked at.
 */
module ParticleLine {
  import opened Wrappers
  import opened Text

  /** The 13 captured columns, kept as the text the regex captured. */
  datatype ParticleRecord = ParticleRecord(
    pdg: string, inout: string, parent1: string, parent2: string,
    color1: string, color2: string, px: string, py: string, pz: string,
    energy: string, mass: string, dist: string, helicity: string)

  /** The columns in the order they appear on the line. */
  function Fields(r: ParticleRecord): (ws: seq<string>)
    ensures |ws| == 13
    ensures ws[6] == r.px && ws[7] == r.py && ws[8] == r.pz && ws[9] == r.energy
  {
    [r.pdg, r.inout, r.parent1, r.parent2, r.color1, r.color2,
     r.px, r.py, r.pz, r.energy, r.mass, r.dist, r.helicity]
  }

  function FromFields(ws: seq<string>): (r: ParticleRecord)
    requires |ws| == 13
    ensures Fields(r) == ws
  {
    ParticleRecord(ws[0], ws[1], ws[2], ws[3], ws[4], ws[5],
                   ws[6], ws[7], ws[8], ws[9], ws[10], ws[11], ws[12])
  }

  /** A word: a non-empty run of characters outside `\s`. */
  predicate IsWord(w: string) {
    w != [] && NoSpace(w)
  }

  /** `\d+` */
  predicate IsUnsigned(w: string) {
    w != [] && AllDigits(w)
  }

  /** `-?\d+` */
  predicate IsSigned(w: string) {
    IsUnsigned(w) || (w != [] && w[0] == '-' && IsUnsigned(w[1..]))
  }

  /** `[-+]\S+` */
  predicate IsSignedToken(w: string) {
    |w| >= 2 && (w[0] == '+' || w[0] == '-')
  }

  /** The character classes of the columns, beyond each being a word. */
  predicate ClassesHold(r: ParticleRecord) {
    && IsSigned(r.pdg) && IsSigned(r.inout)
    && IsUnsigned(r.parent1) && IsUnsigned(r.parent2)
    && IsUnsigned(r.color1) && IsUnsigned(r.color2)
    && IsSignedToken(r.px) && IsSignedToken(r.py) && IsSignedToken(r.pz)
  }

  predicate AllWords(ws: seq<string>) {
    forall k :: 0 <= k < |ws| ==> IsWord(ws[k])
  }

  /** A record the regex can capture: 13 words of the right classes. */
  predicate WellFormed(r: ParticleRecord) {
    AllWords(Fields(r)) && ClassesHold(r)
  }

  /**
   * The `n` words that start at `j`, each after the first preceded by white space, as the
   * forced `\S+ \s+ \S+ ...` of the regex reads them; `None` if the line runs out first.
   */
  function ReadWords(s: string, j: nat, n: nat): (r: Option<seq<string>>)
    requires j <= |s|
    ensures r.Some? ==> |r.value| == n && AllWords(r.value)
    decreases n
  {
    if n == 0 then Some([])
    else
      var k := WordEnd(s, j);
      if k == j then None
      else match ReadWords(s, SkipSpace(s, k), n - 1)
        case None => None
        case Some(ws) => Some([s[j..k]] + ws)
  }

  /** The number of columns of a particle line. */
  const Columns: nat := 13

  /** The regex tried at position `p`. */
  function MatchLineAt(s: string, p: nat): (r: Option<ParticleRecord>)
    requires p <= |s|
    ensures r.Some? ==> WellFormed(r.value)
  {
    match ReadWords(s, SkipSpace(s, p), Columns)
    case None => None
    case Some(ws) =>
      var rec := FromFields(ws);
      if ClassesHold(rec) then Some(rec) else None
  }

  /** The leftmost position from `p` to `last` that satisfies `ok`. */
  function Leftmost(ok: nat -> bool, p: nat, last: nat): (r: Option<nat>)
    ensures r.Some? ==> p <= r.value <= last && ok(r.value)
    decreases last + 1 - p
  {
    if last < p then None
    else if ok(p) then Some(p)
    else Leftmost(ok, p + 1, last)
  }

  /** No position before the reported one satisfies `ok`; with none reported, none does. */
  lemma {:induction false} LeftmostMeaning(ok: nat -> bool, p: nat, last: nat)
    ensures Leftmost(ok, p, last).Some? ==>
              forall t: nat :: p <= t < Leftmost(ok, p, last).value ==> !ok(t)
    ensures Leftmost(ok, p, last).None? ==> forall t: nat :: p <= t <= last ==> !ok(t)
    decreases last + 1 - p
  {
    if p <= last && !ok(p) {
      LeftmostMeaning(ok, p + 1, last);
    }
  }

  /** Whether the regex matches at position `p`. */
  predicate MatchesAt(s: string, p: nat) {
    p <= |s| && MatchLineAt(s, p).Some?
  }

  /** `find()` from the start: the leftmost position where the regex matches. */
  function FindLine(s: string): (r: Option<nat>)
    ensures r.Some? ==> r.value <= |s| && MatchLineAt(s, r.value).Some?
  {
    Leftmost((p: nat) => MatchesAt(s, p), 0, |s|)
  }

  /** What `mat.find()` on one particle line yields: the captured columns, if any. */
  function ParseParticleLine(s: string): (r: Option<ParticleRecord>)
    ensures r.Some? ==> WellFormed(r.value)
  {
    match FindLine(s)
    case None => None
    case Some(q) => MatchLineAt(s, q)
  }

  /**
   * A line is accepted exactly when the regex matches at some position, and what is
   * captured is the match at the leftmost such position.
   */
  lemma ParseParticleLineMeaning(s: string)
    ensures ParseParticleLine(s).None? <==> forall q: nat :: !MatchesAt(s, q)
    ensures ParseParticleLine(s).Some? ==>
              && FindLine(s).Some?
              && ParseParticleLine(s) == MatchLineAt(s, FindLine(s).value)
              && forall t: nat :: t < FindLine(s).value ==> !MatchesAt(s, t)
  {
    var ok := (p: nat) => MatchesAt(s, p);
    LeftmostMeaning(ok, 0, |s|);
    var r := FindLine(s);
    if r.None? {
      forall q: nat
        ensures !MatchesAt(s, q)
      {
        if q <= |s| {
          assert !ok(q);
        }
      }
    } else {
      forall t: nat | t < r.value
        ensures !MatchesAt(s, t)
      {
        assert !ok(t);
      }
    }
  }

  // ------------------------------------------------------------ what a match is

  /** `\s+`: a non-empty run of white space. */
  predicate IsGap(w: string) {
    w != [] && AllSpace(w)
  }

  predicate AllGaps(gaps: seq<string>) {
    forall k :: 0 <= k < |gaps| ==> IsGap(gaps[k])
  }

  /** The words with `gaps[k]` between word `k` and word `k + 1`. */
  function Interleave(ws: seq<string>, gaps: seq<string>): (s: string)
    requires |ws| == |gaps| + 1
    ensures ws[0] != [] ==> s != [] && s[0] == ws[0][0]
    decreases |gaps|
  {
    if gaps == [] then ws[0] else ws[0] + gaps[0] + Interleave(ws[1..], gaps[1..])
  }

  /**
   * The line from `p` on is `lead`, white space, then the words `ws` separated by the
   * runs of white space `gaps`, then `rest`, which is empty or starts with white space.
   */
  ghost predicate LaidOut(s: string, p: nat, ws: seq<string>, lead: string, gaps: seq<string>, rest: string) {
    && |ws| == |gaps| + 1
    && AllSpace(lead) && AllGaps(gaps) && (rest == [] || IsSpace(rest[0]))
    && p <= |s| && s[p..] == lead + Interleave(ws, gaps) + rest
  }

  /**
   * The regex matches at `p` and captures `r` exactly when `r` is a well-formed record
   * whose 13 columns are the line's words from `p` on: after white space, separated by
   * runs of white space of any length, and followed by the end or white space. The
   * captured columns are thus the line's own text.
   */
  lemma MatchLineAtMeaning(s: string, p: nat, r: ParticleRecord)
    requires p <= |s|
    ensures MatchLineAt(s, p) == Some(r) <==>
            WellFormed(r) && exists lead, gaps, rest :: LaidOut(s, p, Fields(r), lead, gaps, rest)
  {
    if MatchLineAt(s, p) == Some(r) {
      var lead, gaps, rest := MatchLaidOut(s, p, r);
    }
    if WellFormed(r) && exists lead, gaps, rest :: LaidOut(s, p, Fields(r), lead, gaps, rest) {
      var lead, gaps, rest :| LaidOut(s, p, Fields(r), lead, gaps, rest);
      LaidOutMatches(s, p, r, lead, gaps, rest);
    }
  }

  /** What the regex captures at `p` is laid out there. */
  lemma MatchLaidOut(s: string, p: nat, r: ParticleRecord) returns (lead: string, gaps: seq<string>, rest: string)
    requires p <= |s| && MatchLineAt(s, p) == Some(r)
    ensures LaidOut(s, p, Fields(r), lead, gaps, rest)
  {
    var j := SkipSpace(s, p);
    var ws := ReadWords(s, j, Columns).value;
    assert Fields(r) == ws;
    gaps, rest := ReadWordsLaidOut(s, j, Columns);
    lead := s[p..j];
    LaidOutOfPieces(s, p, j, ws, gaps, rest);
  }

  /** White space up to `j`, and the words from `j` on, lay the words out from `p`. */
  lemma LaidOutOfPieces(s: string, p: nat, j: nat, ws: seq<string>, gaps: seq<string>, rest: string)
    requires p <= j <= |s| && forall t :: p <= t < j ==> IsSpace(s[t])
    requires |ws| == |gaps| + 1 && AllGaps(gaps) && (rest == [] || IsSpace(rest[0]))
    requires s[j..] == Interleave(ws, gaps) + rest
    ensures LaidOut(s, p, ws, s[p..j], gaps, rest)
  {
    SliceSplit(s, p, j);
    forall t | 0 <= t < j - p
      ensures IsSpace(s[p..j][t])
    {
      assert s[p..j][t] == s[p + t];
    }
  }

  /** A laid-out well-formed record is what the regex captures at `p`. */
  lemma LaidOutMatches(s: string, p: nat, r: ParticleRecord, lead: string, gaps: seq<string>, rest: string)
    requires WellFormed(r) && LaidOut(s, p, Fields(r), lead, gaps, rest)
    ensures MatchLineAt(s, p) == Some(r)
  {
    var pre := s[..p] + lead;
    assert s == pre + Interleave(Fields(r), gaps) + rest by {
      assert s == s[..p] + s[p..];
    }
    ReadInterleaved(pre, Fields(r), gaps, rest);
    assert IsWord(Fields(r)[0]);
    assert s[|pre|] == Fields(r)[0][0];
    forall t | p <= t < |pre|
      ensures IsSpace(s[t])
    {
      assert s[t] == lead[t - p];
    }
    SkipSpaceAt(s, p, |pre|);
    assert FromFields(Fields(r)) == r;
  }

  /**
   * The words `ReadWords` returns are the line's own text: consecutive slices from `j` on,
   * separated by runs of white space and followed by the end or white space.
   */
  lemma {:induction false} ReadWordsLaidOut(s: string, j: nat, n: nat) returns (gaps: seq<string>, rest: string)
    requires j <= |s| && n >= 1 && ReadWords(s, j, n).Some?
    ensures |gaps| + 1 == n && AllGaps(gaps) && (rest == [] || IsSpace(rest[0]))
    ensures s[j..] == Interleave(ReadWords(s, j, n).value, gaps) + rest
    decreases n
  {
    var k := WordEnd(s, j);
    if n == 1 {
      gaps, rest := [], s[k..];
      assert ReadWords(s, j, n).value == [s[j..k]];
      assert s[j..] == s[j..k] + s[k..];
    } else {
      var j' := SkipSpace(s, k);
      assert k < j';
      var g, r := ReadWordsLaidOut(s, j', n - 1);
      var more := ReadWords(s, j', n - 1).value;
      assert ReadWords(s, j, n).value == [s[j..k]] + more;
      gaps, rest := [s[k..j']] + g, r;
      GapSlice(s, k, j');
      WordsSlices(s, j, k, j');
      InterleaveCons(s[j..k], s[k..j'], more, g, r);
    }
  }

  /** The white space skipped after a word is a gap. */
  lemma GapSlice(s: string, k: nat, j: nat)
    requires k < j <= |s| && forall t :: k <= t < j ==> IsSpace(s[t])
    ensures IsGap(s[k..j])
  {
    forall t | 0 <= t < j - k
      ensures IsSpace(s[k..j][t])
    {
      assert s[k..j][t] == s[k + t];
    }
  }

  lemma WordsSlices(s: string, j: nat, k: nat, j': nat)
    requires j <= k <= j' <= |s|
    ensures s[j..] == s[j..k] + s[k..j'] + s[j'..]
  {
  }

  lemma SliceSplit(s: string, p: nat, j: nat)
    requires p <= j <= |s|
    ensures s[p..] == s[p..j] + s[j..]
  {
  }

  /** Interleaving a first word and gap in front of the rest. */
  lemma InterleaveCons(w: string, g: string, ws: seq<string>, gaps: seq<string>, rest: string)
    requires |ws| == |gaps| + 1
    ensures Interleave([w] + ws, [g] + gaps) + rest == w + g + (Interleave(ws, gaps) + rest)
  {
    assert ([w] + ws)[1..] == ws && ([g] + gaps)[1..] == gaps;
  }

  /**
   * Reading words where interleaved words start, with nothing or white space after them,
   * gives the words back, whatever the lengths of the runs of white space between them.
   */
  lemma {:induction false} ReadInterleaved(pre: string, ws: seq<string>, gaps: seq<string>, tail: string)
    requires |ws| == |gaps| + 1 && AllWords(ws) && AllGaps(gaps)
    requires tail == [] || IsSpace(tail[0])
    ensures |pre| <= |pre + Interleave(ws, gaps) + tail|
    ensures ReadWords(pre + Interleave(ws, gaps) + tail, |pre|, |ws|) == Some(ws)
    decreases |gaps|
  {
    if gaps == [] {
      assert IsWord(ws[0]);
      ReadLastWord(pre, ws[0], tail);
      assert ws == [ws[0]];
    } else {
      ReadInterleaved(pre + ws[0] + gaps[0], ws[1..], gaps[1..], tail);
      InterleavedStep(pre, ws, gaps, tail);
    }
  }

  /** A word that sits at `j` and is followed by white space or the end is read whole. */
  lemma WordAt(s: string, j: nat, w: string)
    requires IsWord(w) && OccursAt(s, w, j)
    requires j + |w| == |s| || IsSpace(s[j + |w|])
    ensures WordEnd(s, j) == j + |w| && s[j..WordEnd(s, j)] == w
  {
    forall t | j <= t < j + |w|
      ensures !IsSpace(s[t])
    {
      assert s[t] == s[j..j + |w|][t - j];
    }
    WordEndAt(s, j, j + |w|);
  }

  /** A word followed by nothing or white space reads as one word. */
  lemma ReadLastWord(pre: string, w: string, tail: string)
    requires IsWord(w)
    requires tail == [] || IsSpace(tail[0])
    ensures |pre| <= |pre + w + tail|
    ensures ReadWords(pre + w + tail, |pre|, 1) == Some([w])
  {
    var s := pre + w + tail;
    assert OccursAt(s, w, |pre|) by {
      assert s[|pre|..|pre| + |w|] == w;
    }
    assert |pre| + |w| == |s| || IsSpace(s[|pre| + |w|]) by {
      if |pre| + |w| < |s| {
        assert s[|pre| + |w|] == tail[0];
      }
    }
    WordAt(s, |pre|, w);
    assert ReadWords(s, SkipSpace(s, |pre| + |w|), 0) == Some([]);
    assert [w] + [] == [w];
  }

  lemma InterleavedStep(pre: string, ws: seq<string>, gaps: seq<string>, tail: string)
    requires |ws| == |gaps| + 1 && |gaps| >= 1 && AllWords(ws) && AllGaps(gaps)
    requires var pre' := pre + ws[0] + gaps[0];
             && |pre'| <= |pre' + Interleave(ws[1..], gaps[1..]) + tail|
             && ReadWords(pre' + Interleave(ws[1..], gaps[1..]) + tail, |pre'|, |ws| - 1) == Some(ws[1..])
    ensures |pre| <= |pre + Interleave(ws, gaps) + tail|
    ensures ReadWords(pre + Interleave(ws, gaps) + tail, |pre|, |ws|) == Some(ws)
  {
    var w, g, rest := ws[0], gaps[0], Interleave(ws[1..], gaps[1..]);
    var s := pre + w + g + rest + tail;
    FrontSplit(pre, ws, gaps, tail);
    assert IsWord(w) && IsWord(ws[1]) && IsGap(g);
    WordGapLayout(pre, w, g, rest, tail);
    ReadWordsGap(s, |pre|, w, |pre| + |w| + |g|, |ws|, ws[1..]);
    FirstAndRest(ws);
  }

  lemma FirstAndRest(ws: seq<string>)
    requires ws != []
    ensures [ws[0]] + ws[1..] == ws
  {
  }

  /** The line with its first word and gap split off. */
  lemma FrontSplit(pre: string, ws: seq<string>, gaps: seq<string>, tail: string)
    requires |ws| == |gaps| + 1 && |gaps| >= 1
    ensures pre + Interleave(ws, gaps) + tail == pre + ws[0] + gaps[0] + Interleave(ws[1..], gaps[1..]) + tail
  {
    var w, g, rest := ws[0], gaps[0], Interleave(ws[1..], gaps[1..]);
    assert Interleave(ws, gaps) == w + g + rest;
    AppendAssoc(pre, w + g, rest);
    AppendAssoc(pre, w, g);
  }

  lemma AppendAssoc(x: string, y: string, z: string)
    ensures x + (y + z) == x + y + z
  {
  }

  /** Where a word and the run of white space after it sit in a line. */
  lemma WordGapLayout(pre: string, w: string, g: string, rest: string, tail: string)
    requires rest != []
    ensures var s := pre + w + g + rest + tail;
            && OccursAt(s, w, |pre|)
            && s[|pre| + |w|..|pre| + |w| + |g|] == g
            && |pre| + |w| + |g| < |s| && s[|pre| + |w| + |g|] == rest[0]
  {
    var s := pre + w + g + rest + tail;
    assert s[|pre|..|pre| + |w|] == w;
  }

  /** A word, a run of white space, and then `n - 1` more words read as `n` words. */
  lemma ReadWordsGap(s: string, j: nat, w: string, after: nat, n: nat, more: seq<string>)
    requires IsWord(w) && OccursAt(s, w, j) && n >= 1
    requires j + |w| < after < |s| && !IsSpace(s[after]) && IsGap(s[j + |w|..after])
    requires ReadWords(s, after, n - 1) == Some(more)
    ensures ReadWords(s, j, n) == Some([w] + more)
  {
    forall t | j + |w| <= t < after
      ensures IsSpace(s[t])
    {
      assert s[t] == s[j + |w|..after][t - j - |w|];
    }
    WordAt(s, j, w);
    SkipSpaceAt(s, j + |w|, after);
  }

  /**
   * A line whose columns are aligned, as MadGraph writes them: white space, a well-formed
   * record's columns separated by runs of white space, then nothing or white space and
   * anything. It is accepted and read back unchanged.
   */
  lemma AlignedLineParses(r: ParticleRecord, lead: string, gaps: seq<string>, tail: string)
    requires WellFormed(r) && AllSpace(lead)
    requires |gaps| == Columns - 1 && AllGaps(gaps)
    requires tail == [] || IsSpace(tail[0])
    ensures ParseParticleLine(lead + Interleave(Fields(r), gaps) + tail) == Some(r)
  {
    var s := lead + Interleave(Fields(r), gaps) + tail;
    assert LaidOut(s, 0, Fields(r), lead, gaps, tail) by {
      assert s[0..] == s;
    }
    LaidOutMatches(s, 0, r, lead, gaps, tail);
    assert MatchesAt(s, 0);
  }

  /**
   * A line is rejected exactly when no well-formed record is laid out anywhere in it, and an
   * accepted record is laid out at some position of the line.
   */
  lemma ParseParticleLineLayout(s: string)
    ensures ParseParticleLine(s).None? <==>
            forall p: nat, r, lead, gaps, rest ::
              !(WellFormed(r) && LaidOut(s, p, Fields(r), lead, gaps, rest))
    ensures ParseParticleLine(s).Some? ==>
            exists p: nat, lead, gaps, rest :: LaidOut(s, p, Fields(ParseParticleLine(s).value), lead, gaps, rest)
  {
    ParseParticleLineMeaning(s);
    if ParseParticleLine(s).Some? {
      var q := FindLine(s).value;
      var r := ParseParticleLine(s).value;
      MatchLineAtMeaning(s, q, r);
    } else {
      forall p: nat, r, lead, gaps, rest | WellFormed(r) && LaidOut(s, p, Fields(r), lead, gaps, rest)
        ensures false
      {
        LaidOutMatches(s, p, r, lead, gaps, rest);
        assert MatchesAt(s, p);
      }
    }
  }

  // --------------------------------------------------------- rendered lines parse

  /** The columns separated by single spaces. */
  function RenderFields(r: ParticleRecord): string {
    Join(Fields(r), ' ')
  }

  /** `n` single spaces: the gaps of a rendered line. */
  function SingleSpaces(n: nat): (gaps: seq<string>)
    ensures |gaps| == n && AllGaps(gaps)
  {
    seq(n, _ => " ")
  }

  /** Joining with single spaces interleaves single-space gaps. */
  lemma {:induction false} JoinIsInterleave(ws: seq<string>)
    requires |ws| >= 1
    ensures Join(ws, ' ') == Interleave(ws, SingleSpaces(|ws| - 1))
    decreases |ws|
  {
    if |ws| > 1 {
      JoinIsInterleave(ws[1..]);
      assert SingleSpaces(|ws| - 1)[1..] == SingleSpaces(|ws| - 2);
    }
  }

  /**
   * A well-formed record written as its columns separated by single spaces, after any
   * white space and before nothing or white space and anything, is accepted and read back
   * unchanged.
   */
  lemma RenderedLineParses(r: ParticleRecord, lead: string, tail: string)
    requires WellFormed(r) && AllSpace(lead)
    requires tail == [] || IsSpace(tail[0])
    ensures ParseParticleLine(lead + RenderFields(r) + tail) == Some(r)
  {
    RenderedLineMatchesAtStart(r, lead, tail);
    assert MatchesAt(lead + RenderFields(r) + tail, 0);
  }

  /** The regex tried at the very start of such a line captures the record. */
  lemma RenderedLineMatchesAtStart(r: ParticleRecord, lead: string, tail: string)
    requires WellFormed(r) && AllSpace(lead)
    requires tail == [] || IsSpace(tail[0])
    ensures MatchLineAt(lead + RenderFields(r) + tail, 0) == Some(r)
  {
    var s := lead + RenderFields(r) + tail;
    var gaps := SingleSpaces(Columns - 1);
    JoinIsInterleave(Fields(r));
    assert LaidOut(s, 0, Fields(r), lead, gaps, tail) by {
      assert s[0..] == s;
    }
    LaidOutMatches(s, 0, r, lead, gaps, tail);
  }

  // ------------------------------------------------------ short lines are rejected

  /** The number of words from `j` on, counting a word cut at `j` as one. */
  function CountWords(s: string, j: nat): nat
    requires j <= |s|
    decreases |s| - j
  {
    if j == |s| then 0
    else if IsSpace(s[j]) then CountWords(s, j + 1)
    else 1 + CountWords(s, WordEnd(s, j))
  }

  lemma {:induction false} CountWordsSkip(s: string, j: nat)
    requires j <= |s|
    ensures CountWords(s, SkipSpace(s, j)) == CountWords(s, j)
    decreases |s| - j
  {
    if j < |s| && IsSpace(s[j]) {
      CountWordsSkip(s, j + 1);
    }
  }

  /** Starting later never finds more words. */
  lemma {:induction false} CountWordsMonotone(s: string, j: nat)
    requires j < |s|
    ensures CountWords(s, j + 1) <= CountWords(s, j)
    decreases |s| - j
  {
    if !IsSpace(s[j]) && j + 1 < |s| && !IsSpace(s[j + 1]) {
      assert WordEnd(s, j) == WordEnd(s, j + 1);
    }
  }

  lemma {:induction false} CountWordsFrom(s: string, i: nat, j: nat)
    requires i <= j <= |s|
    ensures CountWords(s, j) <= CountWords(s, i)
    decreases j - i
  {
    if i < j {
      CountWordsFrom(s, i + 1, j);
      CountWordsMonotone(s, i);
    }
  }

  /** Reading `n` words needs `n` words to be there. */
  lemma {:induction false} ReadWordsNeedsWords(s: string, j: nat, n: nat)
    requires j <= |s|
    ensures ReadWords(s, j, n).Some? ==> n <= CountWords(s, j)
    decreases n
  {
    if n > 0 {
      var k := WordEnd(s, j);
      if k != j {
        ReadWordsNeedsWords(s, SkipSpace(s, k), n - 1);
        CountWordsSkip(s, k);
      }
    }
  }

  /** A line with fewer than 13 words is never accepted, wherever `find()` starts. */
  lemma FewWordsRejected(s: string)
    requires CountWords(s, 0) < Columns
    ensures ParseParticleLine(s) == None
  {
    forall q: nat
      ensures !MatchesAt(s, q)
    {
      if q <= |s| {
        var j := SkipSpace(s, q);
        ReadWordsNeedsWords(s, j, Columns);
        CountWordsFrom(s, 0, j);
      }
    }
    ParseParticleLineMeaning(s);
  }
}
