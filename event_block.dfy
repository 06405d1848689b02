/**
 * Locating the event block of a Les Houches Event File: the text between the end of the
 * `<init>` section and the closing `</LesHouchesEvents>` tag, as the DOTALL regex
 * `</init>\n(.*)\n</LesHouchesEvents>` finds it with one call of `find()`.
 */
module EventBlock {
  import opened Wrappers
  import opened Text

  const InitClose := "</init>\n"
  const DocumentClose := "\n</LesHouchesEvents>"

  /** Where the two markers of a match stand: the regex's group 1 lies between them. */
  datatype Bounds = Bounds(open: nat, close: nat)

  /**
   * The leftmost match of the regex. Its greedy `(.*)` runs to the LAST end marker,
   * so the match starts at the first `</init>\n` and ends at the last
   * `\n</LesHouchesEvents>`, provided that marker begins after the first one ends.
   */
  function BlockBounds(doc: string): (r: Option<Bounds>)
    ensures r.Some? <==>
              exists i, j :: OccursAt(doc, InitClose, i) && OccursAt(doc, DocumentClose, j)
                             && i + |InitClose| <= j
    ensures r.Some? ==>
              && OccursAt(doc, InitClose, r.value.open)
              && OccursAt(doc, DocumentClose, r.value.close)
              && r.value.open + |InitClose| <= r.value.close
              && (forall i :: i < r.value.open ==> !OccursAt(doc, InitClose, i))
              && (forall j :: r.value.close < j ==> !OccursAt(doc, DocumentClose, j))
  {
    match FindFirst(doc, InitClose, 0)
    case None => None
    case Some(i) =>
      match FindLast(doc, DocumentClose, |doc| + 1)
      case None => None
      case Some(j) => if i + |InitClose| <= j then Some(Bounds(i, j)) else None
  }

  /** Group 1 of the match: the block, with neither marker, or None when `find()` fails. */
  function ExtractBlock(doc: string): (r: Option<string>)
    ensures r.Some? <==> BlockBounds(doc).Some?
    ensures r.Some? ==>
              var b := BlockBounds(doc).value;
              r.value == doc[b.open + |InitClose|..b.close]
  {
    match BlockBounds(doc)
    case None => None
    case Some(b) => Some(doc[b.open + |InitClose|..b.close])
  }

  /** Inside the end marker of `front + DocumentClose + post`, only its first character is a newline. */
  lemma InsideDocumentClose(front: string, post: string, k: nat)
    requires |front| < k < |front| + |DocumentClose|
    ensures (front + DocumentClose + post)[k] != '\n'
  {
    assert (front + DocumentClose + post)[k] == DocumentClose[k - |front|];
  }

  /** Inside the start marker of `pre + InitClose + rest`, only its last character is a newline. */
  lemma InsideInitClose(pre: string, rest: string, k: nat)
    requires |pre| <= k < |pre| + |InitClose| - 1
    ensures (pre + InitClose + rest)[k] != '\n'
  {
    assert (pre + InitClose + rest)[k] == InitClose[k - |pre|];
  }

  /**
   * "</init>" holds no newline, so a start marker that begins inside the preamble of
   * `pre + InitClose + rest` ends inside it too.
   */
  lemma StartMarkerInPreamble(pre: string, rest: string, i: int)
    ensures 0 <= i < |pre| && OccursAt(pre + InitClose + rest, InitClose, i) ==>
              OccursAt(pre, InitClose, i)
  {
    var doc := pre + InitClose + rest;
    if 0 <= i < |pre| && OccursAt(doc, InitClose, i) {
      assert doc[i + 7] == '\n' by {
        assert doc[i..i + 8][7] == doc[i + 7];
      }
      if |pre| <= i + 7 {
        InsideInitClose(pre, rest, i + 7);
        assert false;
      }
      assert pre[i..i + 8] == doc[i..i + 8];
    }
  }

  /**
   * "</LesHouchesEvents>" holds no newline, so an end marker that begins after the one
   * of `front + DocumentClose + post` lies wholly in the trailer `post`.
   */
  lemma EndMarkerInTrailer(front: string, post: string, j: int)
    ensures |front| < j && OccursAt(front + DocumentClose + post, DocumentClose, j) ==>
              OccursAt(post, DocumentClose, j - |front| - |DocumentClose|)
  {
    var doc := front + DocumentClose + post;
    var t := |front| + |DocumentClose|;
    if |front| < j && OccursAt(doc, DocumentClose, j) {
      assert doc[j] == '\n' by {
        assert doc[j..j + |DocumentClose|][0] == doc[j];
      }
      if j < t {
        InsideDocumentClose(front, post, j);
        assert false;
      }
      assert doc[t..] == post;
      assert post[j - t..j - t + |DocumentClose|] == doc[j..j + |DocumentClose|];
    }
  }

  /** The document built from the parts holds both markers where they were put. */
  lemma MarkersAt(pre: string, body: string, post: string)
    ensures var doc := pre + InitClose + body + DocumentClose + post;
            && OccursAt(doc, InitClose, |pre|)
            && OccursAt(doc, DocumentClose, |pre| + |InitClose| + |body|)
            && doc[|pre| + |InitClose|..|pre| + |InitClose| + |body|] == body
  {
    var doc := pre + InitClose + body + DocumentClose + post;
    var open, close := |pre|, |pre| + |InitClose| + |body|;
    assert doc[open..open + |InitClose|] == InitClose;
    assert doc[close..close + |DocumentClose|] == DocumentClose;
    assert doc[open + |InitClose|..close] == body;
  }

  /**
   * A document made of a preamble, the `</init>` marker, a body, the closing marker and a
   * trailer gives the body back whole, whatever the body holds (even further end markers),
   * as long as the preamble has no `</init>\n` and the trailer no end marker.
   */
  lemma BlockRoundTrip(pre: string, body: string, post: string)
    requires forall i :: !OccursAt(pre, InitClose, i)
    requires forall j :: !OccursAt(post, DocumentClose, j)
    ensures ExtractBlock(pre + InitClose + body + DocumentClose + post) == Some(body)
  {
    var doc := pre + InitClose + body + DocumentClose + post;
    PartsBounds(pre, body, post);
    BoundsAt(doc, |pre|, |pre| + |InitClose| + |body|);
    MarkersAt(pre, body, post);
  }

  /**
   * The first start marker is at `open`, the last end marker at `close`, and they do not
   * overlap.
   */
  ghost predicate MarkersBound(doc: string, open: nat, close: nat) {
    && OccursAt(doc, InitClose, open) && OccursAt(doc, DocumentClose, close)
    && open + |InitClose| <= close
    && (forall i :: i < open ==> !OccursAt(doc, InitClose, i))
    && (forall j :: close < j ==> !OccursAt(doc, DocumentClose, j))
  }

  /** In such a document, the preamble's end and the trailer's start bound the markers. */
  lemma PartsBounds(pre: string, body: string, post: string)
    requires forall i :: !OccursAt(pre, InitClose, i)
    requires forall j :: !OccursAt(post, DocumentClose, j)
    ensures MarkersBound(pre + InitClose + body + DocumentClose + post, |pre|, |pre| + |InitClose| + |body|)
  {
    MarkersAt(pre, body, post);
    NoEarlierStart(pre, body + DocumentClose + post);
    assert pre + InitClose + (body + DocumentClose + post) == pre + InitClose + body + DocumentClose + post;
    NoLaterEnd(pre + InitClose + body, post);
  }

  /** A preamble without `</init>\n` holds no start marker of the whole document. */
  lemma NoEarlierStart(pre: string, rest: string)
    requires forall i :: !OccursAt(pre, InitClose, i)
    ensures forall i :: i < |pre| ==> !OccursAt(pre + InitClose + rest, InitClose, i)
  {
    forall i | i < |pre|
      ensures !OccursAt(pre + InitClose + rest, InitClose, i)
    {
      StartMarkerInPreamble(pre, rest, i);
    }
  }

  /** A trailer without an end marker leaves none after the one that precedes it. */
  lemma NoLaterEnd(front: string, post: string)
    requires forall j :: !OccursAt(post, DocumentClose, j)
    ensures forall j :: |front| < j ==> !OccursAt(front + DocumentClose + post, DocumentClose, j)
  {
    forall j | |front| < j
      ensures !OccursAt(front + DocumentClose + post, DocumentClose, j)
    {
      EndMarkerInTrailer(front, post, j);
    }
  }

  /** The first start marker and the last end marker, in that order, are the match. */
  lemma BoundsAt(doc: string, open: nat, close: nat)
    requires MarkersBound(doc, open, close)
    ensures BlockBounds(doc) == Some(Bounds(open, close))
  {
  }

  /**
   * The converse: whenever the block is found, the document is a preamble without a
   * `</init>\n`, the start marker, the block, the end marker, and a trailer without an end
   * marker.
   */
  lemma BlockDecomposes(doc: string)
    ensures ExtractBlock(doc).Some? ==>
              var b := BlockBounds(doc).value;
              var pre := doc[..b.open];
              var post := doc[b.close + |DocumentClose|..];
              && doc == pre + InitClose + ExtractBlock(doc).value + DocumentClose + post
              && (forall i :: !OccursAt(pre, InitClose, i))
              && (forall j :: !OccursAt(post, DocumentClose, j))
  {
    if ExtractBlock(doc).Some? {
      var b := BlockBounds(doc).value;
      var pre := doc[..b.open];
      var post := doc[b.close + |DocumentClose|..];
      SplitAtMarkers(doc, b.open, b.close);
      forall i
        ensures !OccursAt(pre, InitClose, i)
      {
        OccursInPrefix(doc, b.open, InitClose, i);
      }
      forall j
        ensures !OccursAt(post, DocumentClose, j)
      {
        OccursInSuffix(doc, b.close + |DocumentClose|, DocumentClose, j);
      }
    }
  }

  lemma SplitAtMarkers(doc: string, open: nat, close: nat)
    requires OccursAt(doc, InitClose, open) && OccursAt(doc, DocumentClose, close)
    requires open + |InitClose| <= close
    ensures doc == doc[..open] + InitClose + doc[open + |InitClose|..close] + DocumentClose
                   + doc[close + |DocumentClose|..]
  {
    assert doc[open..open + |InitClose|] == InitClose;
    assert doc[close..close + |DocumentClose|] == DocumentClose;
  }
}
