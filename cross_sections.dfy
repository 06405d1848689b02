/**
 * `extractCrossSections`: the (cross section, uncertainty) pairs of a results report,
 * found by the pattern
 *   results.html">\s*(?<cs>[-.e\d]+)\s*<font.*?</font>\s*(?<dcs>[-.e\d]+)\s*</a>
 * under DOTALL, and written as a two-column comma-separated file.
 *
 * The pattern's `.` in `results.html` is not escaped, so it stands for any character.
 * Because the number class shares no character with `\s` or `<`, every quantifier in the
 * pattern is forced except the lazy `.*?`, which ends at the first `</font>` whose tail
 * matches; a match is then fixed by its start, and `find()` takes the leftmost start.
 *
 * The search is stated for two number classes: the class as written, which the program
 * uses, and the class with `+` added, under which exponents such as `1.2e+02` read back.
 */
module CrossSections {
  import opened Wrappers
  import opened Text
  import opened Csv

  /** `[-.e\d]`, as the pattern is written, or `[-+.e\d]`. */
  datatype NumberClass = AsWritten | WithPlus

  predicate IsNumberChar(k: NumberClass, c: char) {
    c == '-' || c == '.' || c == 'e' || IsDigit(c) || (k == WithPlus && c == '+')
  }

  predicate IsNumber(k: NumberClass, w: string) {
    w != [] && forall t :: 0 <= t < |w| ==> IsNumberChar(k, w[t])
  }

  /** The end of the run of number characters that starts at `j`. */
  function NumberEnd(k: NumberClass, s: string, j: nat): (e: nat)
    requires j <= |s|
    ensures j <= e <= |s|
    ensures forall t :: j <= t < e ==> IsNumberChar(k, s[t])
    ensures e < |s| ==> !IsNumberChar(k, s[e])
    decreases |s| - j
  {
    if j < |s| && IsNumberChar(k, s[j]) then NumberEnd(k, s, j + 1) else j
  }

  const Results: string := "results"
  const Html: string := "html\">"
  /** `results.html">` is 14 characters long, the eighth being any character. */
  const AnchorLength: nat := 14
  const FontOpen: string := "<font"
  const FontClose: string := "</font>"
  const LinkClose: string := "</a>"

  predicate AnchorAt(s: string, i: nat) {
    OccursAt(s, Results, i) && OccursAt(s, Html, i + 8)
  }

  /** What follows the lazy `.*?` when it stops at position `f`. */
  datatype Tail = Tail(dcs: string, end: nat)

  /** `</font>\s*(?<dcs>[-.e\d]+)\s*</a>` tried at `f`. */
  function TailAt(k: NumberClass, s: string, f: nat): (r: Option<Tail>)
    ensures r.Some? ==> f < r.value.end <= |s| && IsNumber(k, r.value.dcs)
  {
    if !OccursAt(s, FontClose, f) then None
    else
      var k0 := SkipSpace(s, f + 7);
      var k1 := NumberEnd(k, s, k0);
      if k1 == k0 then None
      else
        var k2 := SkipSpace(s, k1);
        if OccursAt(s, LinkClose, k2) then Some(Tail(s[k0..k1], k2 + 4)) else None
  }

  /** The lazy `.*?` from `f`: the first stop whose tail matches. */
  function FirstTail(k: NumberClass, s: string, f: nat): (r: Option<Tail>)
    ensures r.Some? ==> f < r.value.end <= |s| && IsNumber(k, r.value.dcs)
    decreases |s| + 1 - f
  {
    if |s| < f then None
    else match TailAt(k, s, f)
      case Some(t) => Some(t)
      case None => FirstTail(k, s, f + 1)
  }

  /**
   * The lazy `.*?` stops at the first position from `f` on where the tail matches, and
   * fails only when the tail matches nowhere from `f` on.
   */
  lemma FirstTailMeaning(k: NumberClass, s: string, f: nat)
    ensures FirstTail(k, s, f).Some? ==>
              exists g: nat :: && f <= g <= |s| && TailAt(k, s, g) == FirstTail(k, s, f)
                               && forall q: nat :: f <= q < g ==> TailAt(k, s, q).None?
    ensures FirstTail(k, s, f).None? ==> forall q: nat :: f <= q ==> TailAt(k, s, q).None?
  {
    if FirstTail(k, s, f).Some? {
      var g := FirstTailStop(k, s, f);
      forall q: nat | f <= q < g
        ensures TailAt(k, s, q).None?
      {
        NoTailBeforeAt(k, s, f, g, q);
      }
    } else {
      FirstTailFails(k, s, f);
    }
  }

  /** The tail matches at no position from `f` up to `g`. */
  predicate NoTailBefore(k: NumberClass, s: string, f: nat, g: nat)
    decreases g - f
  {
    f < g ==> TailAt(k, s, f).None? && NoTailBefore(k, s, f + 1, g)
  }

  /** The position where the lazy `.*?` from `f` stops. */
  lemma {:induction false} FirstTailStop(k: NumberClass, s: string, f: nat) returns (g: nat)
    requires FirstTail(k, s, f).Some?
    ensures f <= g <= |s| && TailAt(k, s, g) == FirstTail(k, s, f) && NoTailBefore(k, s, f, g)
    decreases |s| + 1 - f
  {
    if TailAt(k, s, f).None? {
      g := FirstTailStop(k, s, f + 1);
    } else {
      g := f;
    }
  }

  lemma {:induction false} NoTailBeforeAt(k: NumberClass, s: string, f: nat, g: nat, q: nat)
    requires NoTailBefore(k, s, f, g) && f <= q < g
    ensures TailAt(k, s, q).None?
    decreases q - f
  {
    if f < q {
      NoTailBeforeAt(k, s, f + 1, g, q);
    }
  }

  lemma FirstTailFails(k: NumberClass, s: string, f: nat)
    requires FirstTail(k, s, f).None?
    ensures forall q: nat :: f <= q ==> TailAt(k, s, q).None?
  {
    forall q: nat | f <= q
      ensures TailAt(k, s, q).None?
    {
      FirstTailFailsAt(k, s, f, q);
    }
  }

  lemma {:induction false} FirstTailFailsAt(k: NumberClass, s: string, f: nat, q: nat)
    requires FirstTail(k, s, f).None? && f <= q
    ensures TailAt(k, s, q).None?
    decreases q - f
  {
    if |s| < q {
      assert !OccursAt(s, FontClose, q);
    } else if f < q {
      assert FirstTail(k, s, f + 1).None?;
      FirstTailFailsAt(k, s, f + 1, q);
    }
  }

  /** A match: where it starts, its two groups and where it ends. */
  datatype CsMatch = CsMatch(start: nat, cs: string, dcs: string, end: nat)

  /** Where the cross section starts and ends and where `<font` ends. */
  datatype Head = Head(csStart: nat, csEnd: nat, fontEnd: nat)

  /** `results.html">\s*(?<cs>[-.e\d]+)\s*<font` tried at `i`. */
  function HeadAt(k: NumberClass, s: string, i: nat): (r: Option<Head>)
    ensures r.Some? ==> i < r.value.csStart < r.value.csEnd < r.value.fontEnd <= |s|
    ensures r.Some? ==> IsNumber(k, s[r.value.csStart..r.value.csEnd])
  {
    if !AnchorAt(s, i) then None
    else
      var j0 := SkipSpace(s, i + AnchorLength);
      var j1 := NumberEnd(k, s, j0);
      if j1 == j0 then None
      else
        var j2 := SkipSpace(s, j1);
        if !OccursAt(s, FontOpen, j2) then None
        else Some(Head(j0, j1, j2 + |FontOpen|))
  }

  /** The pattern tried at position `i`: the head, then the lazy `.*?` and the tail. */
  function CsMatchAt(k: NumberClass, s: string, i: nat): (r: Option<CsMatch>)
    ensures r.Some? ==> r.value.start == i < r.value.end <= |s|
    ensures r.Some? ==> IsNumber(k, r.value.cs) && IsNumber(k, r.value.dcs)
  {
    match HeadAt(k, s, i)
    case None => None
    case Some(h) =>
      match FirstTail(k, s, h.fontEnd)
      case None => None
      case Some(t) => Some(CsMatch(i, s[h.csStart..h.csEnd], t.dcs, t.end))
  }

  /** The pattern tried at every position of `s`, the end included. */
  function Attempts(k: NumberClass, s: string): (a: seq<Option<CsMatch>>)
    ensures |a| == |s| + 1
  {
    seq(|s| + 1, i requires 0 <= i <= |s| => CsMatchAt(k, s, i))
  }

  /** The leftmost index from `from` on where an attempt succeeded. */
  function FirstSome(a: seq<Option<CsMatch>>, from: nat): (r: Option<nat>)
    ensures r.Some? ==> from <= r.value < |a| && a[r.value].Some?
    decreases |a| - from
  {
    if |a| <= from then None
    else if a[from].Some? then Some(from)
    else FirstSome(a, from + 1)
  }

  /** No index before the one found succeeded; with none found, none from `from` on did. */
  lemma {:induction false} FirstSomeMeaning(a: seq<Option<CsMatch>>, from: nat)
    ensures FirstSome(a, from).Some? ==>
              forall t :: from <= t < FirstSome(a, from).value ==> a[t].None?
    ensures FirstSome(a, from).None? ==> forall t :: from <= t < |a| ==> a[t].None?
    decreases |a| - from
  {
    if from < |a| && a[from].None? {
      FirstSomeMeaning(a, from + 1);
    }
  }

  /** `find()` from `from`: the match at the leftmost position where there is one. */
  function FindCs(k: NumberClass, s: string, from: nat): (r: Option<CsMatch>)
    ensures r.Some? ==> from <= r.value.start < r.value.end <= |s|
    ensures r.Some? ==> IsNumber(k, r.value.cs) && IsNumber(k, r.value.dcs)
  {
    match FirstSome(Attempts(k, s), from)
    case None => None
    case Some(i) => Attempts(k, s)[i]
  }

  /**
   * `find()` reports the match at the leftmost position from `from` on where the pattern
   * matches, and nothing when it matches nowhere from `from` on.
   */
  lemma FindCsMeaning(k: NumberClass, s: string, from: nat)
    ensures FindCs(k, s, from).Some? ==>
              && CsMatchAt(k, s, FindCs(k, s, from).value.start) == FindCs(k, s, from)
              && forall t: nat :: from <= t < FindCs(k, s, from).value.start ==> CsMatchAt(k, s, t).None?
    ensures FindCs(k, s, from).None? ==> forall t: nat :: from <= t ==> CsMatchAt(k, s, t).None?
  {
    var a := Attempts(k, s);
    FirstSomeMeaning(a, from);
    var r := FirstSome(a, from);
    if r.Some? {
      forall t: nat | from <= t < r.value
        ensures CsMatchAt(k, s, t).None?
      {
        assert a[t].None?;
      }
    } else {
      forall t: nat | from <= t
        ensures CsMatchAt(k, s, t).None?
      {
        if t <= |s| {
          assert a[t].None?;
        } else {
          assert !OccursAt(s, Results, t);
        }
      }
    }
  }

  datatype CrossSection = CrossSection(cs: string, dcs: string)

  predicate AllNumbers(k: NumberClass, pairs: seq<CrossSection>) {
    forall i :: 0 <= i < |pairs| ==> IsNumber(k, pairs[i].cs) && IsNumber(k, pairs[i].dcs)
  }

  /** The pairs of the successive `find()` calls from `from`, each resuming at the previous end. */
  function CrossSectionsFrom(k: NumberClass, s: string, from: nat): (pairs: seq<CrossSection>)
    ensures AllNumbers(k, pairs)
    decreases |s| + 1 - from
  {
    match FindCs(k, s, from)
    case None => []
    case Some(m) => [CrossSection(m.cs, m.dcs)] + CrossSectionsFrom(k, s, m.end)
  }

  /**
   * The pairs of the report, in document order: every cross section and uncertainty is a
   * number of the class, and a report in which `results` never occurs has none.
   */
  function CrossSections(k: NumberClass, report: string): (pairs: seq<CrossSection>)
    ensures AllNumbers(k, pairs)
    ensures (forall i: nat :: !OccursAt(report, Results, i)) ==> pairs == []
  {
    CrossSectionsFrom(k, report, 0)
  }

  const CrossSectionHeader: string := "cross section (pb), uncertainty (pb)"

  /** `String.format("%s,%s", cs, dcs)`: split at commas, it gives back the pair. */
  function PairRow(p: CrossSection): (row: string)
    ensures ',' !in p.cs && ',' !in p.dcs ==> SplitOn(row, ',') == [p.cs, p.dcs]
  {
    PairRowDecodes(p);
    p.cs + "," + p.dcs
  }

  lemma PairRowDecodes(p: CrossSection)
    ensures ',' !in p.cs && ',' !in p.dcs ==> SplitOn(p.cs + "," + p.dcs, ',') == [p.cs, p.dcs]
  {
    if ',' !in p.cs && ',' !in p.dcs {
      assert [p.cs, p.dcs][1..] == [p.dcs];
      assert Join([p.dcs], ',') == p.dcs;
      assert Row([p.cs, p.dcs]) == p.cs + [','] + p.dcs;
      RowDecodes([p.cs, p.dcs]);
    }
  }

  /** The header and then one row per pair, in order. */
  function CrossSectionLines(pairs: seq<CrossSection>): (lines: seq<string>)
    ensures |lines| == |pairs| + 1
  {
    [CrossSectionHeader] + seq(|pairs|, k requires 0 <= k < |pairs| => PairRow(pairs[k]))
  }

  /** `cs` and `dcs` hold, index by index, the two halves of `pairs`. */
  predicate Unzipped(pairs: seq<CrossSection>, cs: seq<string>, dcs: seq<string>) {
    && |cs| == |pairs| && |dcs| == |pairs|
    && forall k :: 0 <= k < |pairs| ==> pairs[k] == CrossSection(cs[k], dcs[k])
  }

  /**
   * One `find()` that reports `m` moves its pair from the pairs still to come to the
   * pairs collected.
   */
  lemma CollectStep(k: NumberClass, s: string, from: nat, done: seq<CrossSection>, cs: seq<string>, dcs: seq<string>, m: CsMatch)
    requires FindCs(k, s, from) == Some(m)
    requires Unzipped(done, cs, dcs)
    requires done + CrossSectionsFrom(k, s, from) == CrossSections(k, s)
    ensures Unzipped(done + [CrossSection(m.cs, m.dcs)], cs + [m.cs], dcs + [m.dcs])
    ensures (done + [CrossSection(m.cs, m.dcs)]) + CrossSectionsFrom(k, s, m.end) == CrossSections(k, s)
  {
    FindThenRest(k, s, from, m);
    UnzippedSnoc(done, cs, dcs, m.cs, m.dcs);
    MoveFirst(done, CrossSection(m.cs, m.dcs), CrossSectionsFrom(k, s, m.end));
  }

  lemma MoveFirst(done: seq<CrossSection>, p: CrossSection, rest: seq<CrossSection>)
    ensures done + ([p] + rest) == (done + [p]) + rest
  {
  }

  /** Appending a pair to the pairs appends its halves to the two lists. */
  lemma UnzippedSnoc(pairs: seq<CrossSection>, cs: seq<string>, dcs: seq<string>, c: string, d: string)
    requires Unzipped(pairs, cs, dcs)
    ensures Unzipped(pairs + [CrossSection(c, d)], cs + [c], dcs + [d])
  {
  }

  /** When `find()` reports nothing, the pairs collected are all of them. */
  lemma CollectDone(k: NumberClass, s: string, from: nat, done: seq<CrossSection>)
    requires FindCs(k, s, from).None?
    requires done + CrossSectionsFrom(k, s, from) == CrossSections(k, s)
    ensures done == CrossSections(k, s)
  {
    assert CrossSectionsFrom(k, s, from) == [];
    assert done + [] == done;
  }

  /**
   * The `while (mat.find())` loop: the two lists hold the cross sections and the
   * uncertainties of the matches, in document order, and so have the same length.
   */
  method CollectMatches(k: NumberClass, report: string) returns (cs: seq<string>, dcs: seq<string>)
    ensures Unzipped(CrossSections(k, report), cs, dcs)
  {
    cs, dcs := [], [];
    ghost var done: seq<CrossSection> := [];
    var from := 0;
    var m := FindCs(k, report, from);
    while m.Some?
      invariant Unzipped(done, cs, dcs)
      invariant m == FindCs(k, report, from)
      invariant done + CrossSectionsFrom(k, report, from) == CrossSections(k, report)
      decreases |report| + 1 - from
    {
      CollectStep(k, report, from, done, cs, dcs, m.value);
      done := done + [CrossSection(m.value.cs, m.value.dcs)];
      cs, dcs := cs + [m.value.cs], dcs + [m.value.dcs];
      from := m.value.end;
      m := FindCs(k, report, from);
    }
    CollectDone(k, report, from, done);
  }

  /**
   * `extractCrossSections` on the text of a report: the file `storeDir + fileName` with
   * the header and one row `cs,dcs` per match, in document order. The reader's pattern
   * is `k == AsWritten`; `WithPlus` is the same step with `+` in the number class.
   */
  method ExtractCrossSections(k: NumberClass, report: string, storeDir: string, fileName: string) returns (file: CsvFile)
    ensures file == CsvFile(storeDir + fileName, CrossSectionLines(CrossSections(k, report)))
  {
    var cs, dcs := CollectMatches(k, report);
    ghost var pairs := CrossSections(k, report);
    var lines := [CrossSectionHeader];
    var next := 0;
    for i := 0 to |cs|
      invariant next == i
      invariant lines == CrossSectionLines(pairs[..i])
    {
      var d := dcs[next];
      next := next + 1;
      LinesSnoc(pairs, i);
      lines := lines + [cs[i] + "," + d];
    }
    assert pairs[..|cs|] == pairs;
    file := CsvFile(storeDir + fileName, lines);
  }

  /** One more pair adds its row at the end. */
  lemma LinesSnoc(pairs: seq<CrossSection>, k: nat)
    requires k < |pairs|
    ensures CrossSectionLines(pairs[..k + 1]) ==
            CrossSectionLines(pairs[..k]) + [pairs[k].cs + "," + pairs[k].dcs]
  {
    assert pairs[..k + 1] == pairs[..k] + [pairs[k]];
  }

  lemma NumberHasNoComma(k: NumberClass, w: string)
    requires IsNumber(k, w)
    ensures ',' !in w
  {
    forall t | 0 <= t < |w|
      ensures w[t] != ','
    {
      assert IsNumberChar(k, w[t]);
    }
  }

  /** Every row splits back at its one comma into the pair it was made from. */
  lemma RowsDecode(k: NumberClass, pairs: seq<CrossSection>, i: nat)
    requires AllNumbers(k, pairs) && i < |pairs|
    ensures SplitOn(CrossSectionLines(pairs)[i + 1], ',') == [pairs[i].cs, pairs[i].dcs]
  {
    NumberHasNoComma(k, pairs[i].cs);
    NumberHasNoComma(k, pairs[i].dcs);
  }

  // ------------------------------------------------------------------ round trip

  const Anchor: string := "results.html\">"

  /**
   * One link of a report: `results.html">`, white space, the cross section, white space,
   * `<font`, the rest of the font element up to `</font>`, white space, the uncertainty,
   * white space and `</a>`.
   */
  datatype Link = Link(cs: string, dcs: string, lead: string, mid: string, font: string, gap: string, trail: string)

  /** The text of a link, nested to the right so that each part can be peeled off in turn. */
  function LinkText(l: Link): string {
    Anchor + (l.lead + (l.cs + (l.mid + (FontOpen + (l.font + TailText(l))))))
  }

  /** The part of a link from its `</font>` on. */
  function TailText(l: Link): string {
    FontClose + (l.gap + (l.dcs + (l.trail + LinkClose)))
  }

  /**
   * A link the pattern reads back under class `k`: both numbers of the class, white space
   * where the pattern has `\s*`, and no `<` before the `</font>`.
   */
  predicate LinkHolds(k: NumberClass, l: Link) {
    && IsNumber(k, l.cs) && IsNumber(k, l.dcs)
    && AllSpace(l.lead) && AllSpace(l.mid) && AllSpace(l.gap) && AllSpace(l.trail)
    && '<' !in l.font
  }

  /** No `results` starts inside `sep`, not even one that runs on into the next link. */
  predicate AnchorFree(sep: string) {
    forall q :: 0 <= q < |sep| ==> !OccursAt(sep + Results, Results, q)
  }

  /** A report laid out as `seps[0] links[0] seps[1] ... seps[n]`. */
  function Report(seps: seq<string>, links: seq<Link>): string
    requires |seps| == |links| + 1
    decreases |links|
  {
    if links == [] then seps[0]
    else seps[0] + LinkText(links[0]) + Report(seps[1..], links[1..])
  }

  /** The pair each link holds. */
  function PairsOf(links: seq<Link>): (pairs: seq<CrossSection>)
    ensures |pairs| == |links|
    ensures forall i :: 0 <= i < |links| ==> pairs[i] == CrossSection(links[i].cs, links[i].dcs)
  {
    if links == [] then [] else [CrossSection(links[0].cs, links[0].dcs)] + PairsOf(links[1..])
  }

  predicate Reportable(k: NumberClass, seps: seq<string>, links: seq<Link>) {
    && |seps| == |links| + 1
    && (forall i :: 0 <= i < |seps| ==> AnchorFree(seps[i]))
    && forall i :: 0 <= i < |links| ==> LinkHolds(k, links[i])
  }

  /** Text `x + y` at `i` is `x` at `i` followed by `y`. */
  lemma Peel(s: string, i: nat, x: string, y: string)
    requires OccursAt(s, x + y, i)
    ensures OccursAt(s, x, i) && OccursAt(s, y, i + |x|)
  {
    assert s[i..i + |x|] == (x + y)[..|x|];
    assert s[i + |x|..i + |x| + |y|] == (x + y)[|x|..];
  }

  /** `\s*` at `p` takes the white space `w` and stops before `rest`. */
  lemma SpaceRun(s: string, p: nat, w: string, rest: string)
    requires OccursAt(s, w + rest, p) && AllSpace(w) && rest != [] && !IsSpace(rest[0])
    ensures SkipSpace(s, p) == p + |w| && OccursAt(s, rest, p + |w|)
  {
    Peel(s, p, w, rest);
    forall t | p <= t < p + |w|
      ensures IsSpace(s[t])
    {
      assert s[t] == w[t - p];
    }
    assert s[p + |w|] == rest[0];
    SkipSpaceAt(s, p, p + |w|);
  }

  /** The greedy number group at `p` takes the number `w` and stops before `rest`. */
  lemma NumberRun(k: NumberClass, s: string, p: nat, w: string, rest: string)
    requires OccursAt(s, w + rest, p) && IsNumber(k, w) && rest != [] && !IsNumberChar(k, rest[0])
    ensures NumberEnd(k, s, p) == p + |w| && s[p..p + |w|] == w && OccursAt(s, rest, p + |w|)
  {
    Peel(s, p, w, rest);
    forall t | p <= t < p + |w|
      ensures IsNumberChar(k, s[t])
    {
      assert s[t] == w[t - p];
    }
    assert s[p + |w|] == rest[0];
    NumberEndAt(k, s, p, p + |w|);
  }

  lemma {:induction false} NumberEndAt(k: NumberClass, s: string, j: nat, e: nat)
    requires j <= e < |s| && !IsNumberChar(k, s[e])
    requires forall t :: j <= t < e ==> IsNumberChar(k, s[t])
    ensures NumberEnd(k, s, j) == e
    decreases e - j
  {
    if j < e {
      NumberEndAt(k, s, j + 1, e);
    }
  }

  /** The lazy `.*?` stops at `g` when the tail matches there and at no earlier stop. */
  lemma {:induction false} FirstTailAt(k: NumberClass, s: string, f: nat, g: nat)
    requires f <= g && TailAt(k, s, g).Some?
    requires forall q: nat :: f <= q < g ==> TailAt(k, s, q).None?
    ensures FirstTail(k, s, f) == TailAt(k, s, g)
    decreases g - f
  {
    if f < g {
      FirstTailAt(k, s, f + 1, g);
    }
  }
  /** The lazy `.*?` passes over a position where no tail matches. */
  lemma FirstTailStep(k: NumberClass, s: string, f: nat)
    requires TailAt(k, s, f).None?
    ensures FirstTail(k, s, f) == FirstTail(k, s, f + 1)
  {
  }

  /** The lazy `.*?` passes over positions where no tail matches. */
  lemma {:induction false} FirstTailSkip(k: NumberClass, s: string, f: nat, g: nat)
    requires f <= g && forall q: nat :: f <= q < g ==> TailAt(k, s, q).None?
    ensures FirstTail(k, s, f) == FirstTail(k, s, g)
    decreases g - f
  {
    if f < g {
      FirstTailSkip(k, s, f + 1, g);
    }
  }


  /** `find()` from `from` reports the match at `i` when no earlier position matches. */
  lemma FindCsAt(k: NumberClass, s: string, from: nat, i: nat)
    requires from <= i && CsMatchAt(k, s, i).Some?
    requires forall q: nat :: from <= q < i ==> CsMatchAt(k, s, q).None?
    ensures FindCs(k, s, from) == CsMatchAt(k, s, i)
  {
    FindCsMeaning(k, s, from);
  }

  /** The lazy `.*?` passes over font text free of `<`: no tail matches inside it. */
  lemma FontSkipped(k: NumberClass, s: string, p: nat, font: string)
    requires '<' !in font && OccursAt(s, font, p)
    ensures forall q: nat :: p <= q < p + |font| ==> TailAt(k, s, q).None?
  {
    forall q: nat | p <= q < p + |font|
      ensures TailAt(k, s, q).None?
    {
      assert s[q] == font[q - p];
      assert !OccursAt(s, FontClose, q) by {
        assert s[q] != FontClose[0];
      }
    }
  }

  /**
   * After `<font`: the `.*?` passes over font text free of `<` and stops at the `</font>`
   * whose tail captures the uncertainty `dcs`.
   */
  lemma FontThenTail(k: NumberClass, s: string, p: nat, font: string, gap: string, dcs: string, trail: string, e: nat)
    requires '<' !in font && AllSpace(gap) && IsNumber(k, dcs) && AllSpace(trail)
    requires OccursAt(s, font + (FontClose + (gap + (dcs + (trail + LinkClose)))), p)
    requires e == p + |font| + |FontClose| + |gap| + |dcs| + |trail| + |LinkClose|
    ensures FirstTail(k, s, p) == Some(Tail(dcs, e))
  {
    var g := p + |font|;
    Peel(s, p, font, FontClose + (gap + (dcs + (trail + LinkClose))));
    FontSkipped(k, s, p, font);
    TailOfLink(k, s, g, gap, dcs, trail, e);
    FirstTailAt(k, s, p, g);
  }

  /** At a link's `</font>` the tail matches and captures the link's uncertainty. */
  lemma TailOfLink(k: NumberClass, s: string, g: nat, gap: string, dcs: string, trail: string, e: nat)
    requires AllSpace(gap) && IsNumber(k, dcs) && AllSpace(trail)
    requires OccursAt(s, FontClose + (gap + (dcs + (trail + LinkClose))), g)
    requires e == g + |FontClose| + |gap| + |dcs| + |trail| + |LinkClose|
    ensures TailAt(k, s, g) == Some(Tail(dcs, e))
  {
    var k0 := g + |FontClose| + |gap|;
    var k1 := k0 + |dcs|;
    var k2 := k1 + |trail|;
    TailGap(s, g, gap, dcs + (trail + LinkClose), k0);
    TailNumber(k, s, k0, dcs, trail, k1, k2);
    TailAtPositions(k, s, g, k0, k1, k2, dcs, e);
  }

  /** `</font>` at `g` and the white space after it, before the text `x`. */
  lemma TailGap(s: string, g: nat, gap: string, x: string, k0: nat)
    requires AllSpace(gap) && x != [] && !IsSpace(x[0])
    requires OccursAt(s, FontClose + (gap + x), g) && k0 == g + |FontClose| + |gap|
    ensures OccursAt(s, FontClose, g) && SkipSpace(s, g + |FontClose|) == k0 && OccursAt(s, x, k0)
  {
    Peel(s, g, FontClose, gap + x);
    SpaceRun(s, g + |FontClose|, gap, x);
  }

  /** The uncertainty, the white space after it and `</a>`. */
  lemma TailNumber(k: NumberClass, s: string, k0: nat, dcs: string, trail: string, k1: nat, k2: nat)
    requires IsNumber(k, dcs) && AllSpace(trail)
    requires OccursAt(s, dcs + (trail + LinkClose), k0) && k1 == k0 + |dcs| && k2 == k1 + |trail|
    ensures NumberEnd(k, s, k0) == k1 && s[k0..k1] == dcs
    ensures SkipSpace(s, k1) == k2 && OccursAt(s, LinkClose, k2)
  {
    NumberRun(k, s, k0, dcs, trail + LinkClose);
    SpaceRun(s, k1, trail, LinkClose);
  }

  /** The tail at `g`, given where its white space and its number end. */
  lemma TailAtPositions(k: NumberClass, s: string, g: nat, k0: nat, k1: nat, k2: nat, dcs: string, e: nat)
    requires OccursAt(s, FontClose, g) && SkipSpace(s, g + |FontClose|) == k0
    requires k0 <= |s| && NumberEnd(k, s, k0) == k1 && k0 < k1
    requires SkipSpace(s, k1) == k2 && OccursAt(s, LinkClose, k2)
    requires s[k0..k1] == dcs && e == k2 + |LinkClose|
    ensures TailAt(k, s, g) == Some(Tail(dcs, e))
  {
  }

  /** Where the font part of a link starts, once the link's text is at `i`. */
  lemma FontPartAt(s: string, i: nat, lead: string, cs: string, mid: string, rest: string)
    requires OccursAt(s, Anchor + (lead + (cs + (mid + (FontOpen + rest)))), i)
    ensures OccursAt(s, rest, i + |Anchor| + |lead| + |cs| + |mid| + |FontOpen|)
  {
    Peel(s, i, Anchor, lead + (cs + (mid + (FontOpen + rest))));
    Peel(s, i + |Anchor|, lead, cs + (mid + (FontOpen + rest)));
    Peel(s, i + |Anchor| + |lead|, cs, mid + (FontOpen + rest));
    Peel(s, i + |Anchor| + |lead| + |cs|, mid, FontOpen + rest);
    Peel(s, i + |Anchor| + |lead| + |cs| + |mid|, FontOpen, rest);
  }

  /** The head of a link, up to `<font`, at `i` captures the link's cross section. */
  lemma LinkHead(k: NumberClass, s: string, i: nat, lead: string, cs: string, mid: string, rest: string, p: nat)
    requires AllSpace(lead) && IsNumber(k, cs) && AllSpace(mid)
    requires OccursAt(s, Anchor + (lead + (cs + (mid + (FontOpen + rest)))), i)
    requires p == i + |Anchor| + |lead| + |cs| + |mid| + |FontOpen|
    ensures HeadAt(k, s, i).Some? && HeadAt(k, s, i).value.fontEnd == p
    ensures s[HeadAt(k, s, i).value.csStart..HeadAt(k, s, i).value.csEnd] == cs
  {
    var j0 := i + |Anchor| + |lead|;
    var j1 := j0 + |cs|;
    var j2 := j1 + |mid|;
    HeadParts(k, s, i, lead, cs, mid, rest, j0, j1, j2);
    HeadAtPositions(k, s, i, j0, j1, j2);
  }

  /** Where the white space, the cross section and the white space of a link's head end. */
  lemma HeadParts(k: NumberClass, s: string, i: nat, lead: string, cs: string, mid: string, rest: string,
                  j0: nat, j1: nat, j2: nat)
    requires AllSpace(lead) && IsNumber(k, cs) && AllSpace(mid)
    requires OccursAt(s, Anchor + (lead + (cs + (mid + (FontOpen + rest)))), i)
    requires j0 == i + |Anchor| + |lead| && j1 == j0 + |cs| && j2 == j1 + |mid|
    ensures AnchorAt(s, i) && SkipSpace(s, i + AnchorLength) == j0
    ensures NumberEnd(k, s, j0) == j1 && s[j0..j1] == cs
    ensures SkipSpace(s, j1) == j2 && OccursAt(s, FontOpen, j2)
  {
    HeadLead(s, i, lead, cs + (mid + (FontOpen + rest)), j0);
    HeadNumber(k, s, j0, cs, mid, rest, j1, j2);
  }

  /** The anchor and the white space after it, before the text `x`. */
  lemma HeadLead(s: string, i: nat, lead: string, x: string, j0: nat)
    requires AllSpace(lead) && x != [] && !IsSpace(x[0])
    requires OccursAt(s, Anchor + (lead + x), i) && j0 == i + |Anchor| + |lead|
    ensures AnchorAt(s, i) && SkipSpace(s, i + AnchorLength) == j0 && OccursAt(s, x, j0)
  {
    Peel(s, i, Anchor, lead + x);
    AnchorText(s, i);
    SpaceRun(s, i + |Anchor|, lead, x);
  }

  /** The cross section, the white space after it and `<font`. */
  lemma HeadNumber(k: NumberClass, s: string, j0: nat, cs: string, mid: string, rest: string, j1: nat, j2: nat)
    requires IsNumber(k, cs) && AllSpace(mid)
    requires OccursAt(s, cs + (mid + (FontOpen + rest)), j0) && j1 == j0 + |cs| && j2 == j1 + |mid|
    ensures NumberEnd(k, s, j0) == j1 && s[j0..j1] == cs
    ensures SkipSpace(s, j1) == j2 && OccursAt(s, FontOpen, j2)
  {
    NumberRun(k, s, j0, cs, mid + (FontOpen + rest));
    SpaceRun(s, j1, mid, FontOpen + rest);
    Peel(s, j2, FontOpen, rest);
  }

  /** `results.html">` at `i` is an anchor there. */
  lemma AnchorText(s: string, i: nat)
    requires OccursAt(s, Anchor, i)
    ensures AnchorAt(s, i)
  {
    assert s[i..i + |Results|] == Anchor[..|Results|];
    assert s[i + 8..i + 8 + |Html|] == Anchor[8..];
  }

  /** The head at `i`, given where its parts end. */
  lemma HeadAtPositions(k: NumberClass, s: string, i: nat, j0: nat, j1: nat, j2: nat)
    requires AnchorAt(s, i) && SkipSpace(s, i + AnchorLength) == j0
    requires j0 <= |s| && NumberEnd(k, s, j0) == j1 && j0 < j1
    requires SkipSpace(s, j1) == j2 && OccursAt(s, FontOpen, j2)
    ensures HeadAt(k, s, i) == Some(Head(j0, j1, j2 + |FontOpen|))
  {
  }

  /** The match at `i` from its head and the tail the `.*?` finds after it. */
  lemma MatchFromHead(k: NumberClass, s: string, i: nat, cs: string, p: nat, t: Tail)
    requires HeadAt(k, s, i).Some? && HeadAt(k, s, i).value.fontEnd == p
    requires s[HeadAt(k, s, i).value.csStart..HeadAt(k, s, i).value.csEnd] == cs
    requires FirstTail(k, s, p) == Some(t)
    ensures CsMatchAt(k, s, i) == Some(CsMatch(i, cs, t.dcs, t.end))
  {
  }

  /** The pattern matches a link given by its parts and captures its pair. */
  lemma PartsMatch(k: NumberClass, s: string, i: nat, lead: string, cs: string, mid: string, font: string,
                   gap: string, dcs: string, trail: string, p: nat, e: nat)
    requires AllSpace(lead) && IsNumber(k, cs) && AllSpace(mid)
    requires '<' !in font && AllSpace(gap) && IsNumber(k, dcs) && AllSpace(trail)
    requires OccursAt(s, Anchor + (lead + (cs + (mid + (FontOpen + (font + (FontClose + (gap + (dcs + (trail + LinkClose))))))))), i)
    requires p == i + |Anchor| + |lead| + |cs| + |mid| + |FontOpen|
    requires e == p + |font| + |FontClose| + |gap| + |dcs| + |trail| + |LinkClose|
    ensures CsMatchAt(k, s, i) == Some(CsMatch(i, cs, dcs, e))
  {
    var rest := font + (FontClose + (gap + (dcs + (trail + LinkClose))));
    FontPartAt(s, i, lead, cs, mid, rest);
    FontThenTail(k, s, p, font, gap, dcs, trail, e);
    LinkHead(k, s, i, lead, cs, mid, rest, p);
    MatchFromHead(k, s, i, cs, p, Tail(dcs, e));
  }

  /** At the start of a link the pattern matches the whole link and captures its pair. */
  lemma LinkMatches(k: NumberClass, s: string, i: nat, l: Link, m: CsMatch)
    requires LinkHolds(k, l) && OccursAt(s, LinkText(l), i)
    requires m == CsMatch(i, l.cs, l.dcs, i + |LinkText(l)|)
    ensures CsMatchAt(k, s, i) == Some(m)
  {
    var p := i + |Anchor| + |l.lead| + |l.cs| + |l.mid| + |FontOpen|;
    var e := p + |l.font| + |FontClose| + |l.gap| + |l.dcs| + |l.trail| + |LinkClose|;
    LinkSize(l, i, p, e);
    assert m == CsMatch(i, l.cs, l.dcs, e);
    PartsMatch(k, s, i, l.lead, l.cs, l.mid, l.font, l.gap, l.dcs, l.trail, p, e);
  }

  /** Where a link placed at `i` ends. */
  lemma LinkSize(l: Link, i: nat, p: nat, e: nat)
    requires p == i + |Anchor| + |l.lead| + |l.cs| + |l.mid| + |FontOpen|
    requires e == p + |l.font| + |FontClose| + |l.gap| + |l.dcs| + |l.trail| + |LinkClose|
    ensures e == i + |LinkText(l)|
  {
  }

  /** No match starts inside a separator free of `results` that ends at `i`. */
  lemma NoMatchInSep(k: NumberClass, s: string, a: nat, sep: string, i: nat)
    requires AnchorFree(sep) && i == a + |sep| && i <= |s| && s[a..i] == sep
    requires i == |s| || OccursAt(s, Results, i)
    ensures forall q: nat :: a <= q < i ==> CsMatchAt(k, s, q).None?
  {
    forall q: nat | a <= q < i
      ensures CsMatchAt(k, s, q).None?
    {
      NoAnchorInSep(s, a, sep, i, q);
    }
  }

  /** Inside the separator the text reads as in `sep + results`, where `results` does not start. */
  lemma NoAnchorInSep(s: string, a: nat, sep: string, i: nat, q: nat)
    requires AnchorFree(sep) && i == a + |sep| && i <= |s| && s[a..i] == sep
    requires i == |s| || OccursAt(s, Results, i)
    requires a <= q < i
    ensures !OccursAt(s, Results, q)
  {
    if q + |Results| <= |s| {
      var u := sep + Results;
      var d: nat := q - a;
      assert !OccursAt(u, Results, d);
      var here, there := s[q..q + |Results|], u[d..d + |Results|];
      forall j | 0 <= j < |Results|
        ensures here[j] == there[j]
      {
        if q + j < i {
          assert s[q + j] == s[a..i][d + j];
        } else {
          assert s[q + j] == s[i..i + |Results|][d + j - |sep|];
        }
      }
    }
  }

  /**
   * Reading a laid-out report from just after `pre` gives the pairs of its links, in
   * order.
   */
  lemma {:induction false} ReportFrom(k: NumberClass, pre: string, seps: seq<string>, links: seq<Link>)
    requires Reportable(k, seps, links)
    ensures CrossSectionsFrom(k, pre + Report(seps, links), |pre|) == PairsOf(links)
    decreases |links|
  {
    var s := pre + Report(seps, links);
    if links == [] {
      assert s[|pre|..|pre| + |seps[0]|] == seps[0];
      NoMatchInSep(k, s, |pre|, seps[0], |pre| + |seps[0]|);
      FindCsMeaning(k, s, |pre|);
    } else {
      var w := LinkText(links[0]);
      var tail := Report(seps[1..], links[1..]);
      assert Reportable(k, seps[1..], links[1..]);
      ReportFrom(k, pre + seps[0] + w, seps[1..], links[1..]);
      ReportStep(k, pre, seps[0], links[0], tail, PairsOf(links[1..]));
    }
  }

  /** The link after a separator comes first, then those of the rest of the report. */
  lemma ReportStep(k: NumberClass, pre: string, sep: string, l: Link, tail: string, ps: seq<CrossSection>)
    requires AnchorFree(sep) && LinkHolds(k, l)
    requires var pre' := pre + sep + LinkText(l);
             CrossSectionsFrom(k, pre' + tail, |pre'|) == ps
    ensures CrossSectionsFrom(k, pre + (sep + LinkText(l) + tail), |pre|) == [CrossSection(l.cs, l.dcs)] + ps
  {
    var w := LinkText(l);
    var s := (pre + sep + w) + tail;
    assert pre + (sep + w + tail) == s;
    var i := |pre| + |sep|;
    assert s[i..i + |w|] == w;
    assert s[|pre|..i] == sep;
    var m := CsMatch(i, l.cs, l.dcs, |pre + sep + w|);
    FirstAfterSep(k, s, |pre|, sep, l, i, m);
    FindThenRest(k, s, |pre|, m);
  }

  /** One `find()` that reports `m`, then the rest of the search from its end. */
  lemma FindThenRest(k: NumberClass, s: string, from: nat, m: CsMatch)
    requires FindCs(k, s, from) == Some(m)
    ensures CrossSectionsFrom(k, s, from) == [CrossSection(m.cs, m.dcs)] + CrossSectionsFrom(k, s, m.end)
  {
  }

  /** From the start of a separator, `find()` reports the link that follows it. */
  lemma FirstAfterSep(k: NumberClass, s: string, a: nat, sep: string, l: Link, i: nat, m: CsMatch)
    requires AnchorFree(sep) && LinkHolds(k, l)
    requires i == a + |sep| && i <= |s| && s[a..i] == sep && OccursAt(s, LinkText(l), i)
    requires m == CsMatch(i, l.cs, l.dcs, i + |LinkText(l)|)
    ensures FindCs(k, s, a) == Some(m)
  {
    LinkMatches(k, s, i, l, m);
    LinkStartsResults(s, i, l);
    NoMatchInSep(k, s, a, sep, i);
    FindCsAt(k, s, a, i);
  }

  /** A link starts with `results`. */
  lemma LinkStartsResults(s: string, i: nat, l: Link)
    requires OccursAt(s, LinkText(l), i)
    ensures OccursAt(s, Results, i)
  {
    assert s[i..i + |Results|] == LinkText(l)[..|Results|];
  }

  /** A report laid out from links the class reads yields exactly the links' pairs. */
  lemma ReportRoundTrip(k: NumberClass, seps: seq<string>, links: seq<Link>)
    requires Reportable(k, seps, links)
    ensures CrossSections(k, Report(seps, links)) == PairsOf(links)
  {
    ReportFrom(k, "", seps, links);
    assert "" + Report(seps, links) == Report(seps, links);
  }

  // -------------------------------------------------------------------- finding

  /** A link whose uncertainty is written with an explicit exponent sign. */
  const SignedLink: Link := Link("1", "1e+2", "", "", ">", "", "")
  /** A link whose numbers are plain. */
  const PlainLink: Link := Link("2", "3", "", "", ">", "", "")
  /** The two links one after the other, as `results.html">1<font></font>1e+2</a>...`. */
  const PlusPage: string := LinkText(SignedLink) + LinkText(PlainLink)

  /** No `</font>` starts inside `w`: each `<` of `w` is followed, within `w`, by no `/f`. */
  predicate NoCloseStarts(w: string) {
    forall t :: 0 <= t < |w| && w[t] == '<' ==> t + 2 < |w| && (w[t + 1] != '/' || w[t + 2] != 'f')
  }

  /** The tail matches nowhere inside text that starts no `</font>`. */
  lemma NoTailWithin(k: NumberClass, s: string, p: nat, w: string)
    requires OccursAt(s, w, p) && NoCloseStarts(w)
    ensures forall q: nat :: p <= q < p + |w| ==> TailAt(k, s, q).None?
  {
    forall q: nat | p <= q < p + |w|
      ensures TailAt(k, s, q).None?
    {
      NoCloseAt(s, p, w, q);
    }
  }

  /** At a position inside such text, `</font>` does not start. */
  lemma NoCloseAt(s: string, p: nat, w: string, q: nat)
    requires OccursAt(s, w, p) && NoCloseStarts(w) && p <= q < p + |w|
    ensures !OccursAt(s, FontClose, q)
  {
    if q + |FontClose| <= |s| {
      var t := q - p;
      assert s[q] == w[t];
      if w[t] != '<' {
        assert s[q..q + |FontClose|][0] != FontClose[0];
      } else if w[t + 1] != '/' {
        assert s[q + 1] == w[t + 1];
        assert s[q..q + |FontClose|][1] != FontClose[1];
      } else {
        assert s[q + 2] == w[t + 2];
        assert s[q..q + |FontClose|][2] != FontClose[2];
      }
    }
  }

  /**
   * Under the class as written, a tail whose word `w` has a `+` at `n` fails there: the
   * number stops before the `+`, and `</a>` does not follow it.
   */
  lemma SignStopsTail(s: string, g: nat, gap: string, w: string, rest: string, n: nat)
    requires AllSpace(gap) && 0 < n < |w| && w[n] == '+' && IsNumber(AsWritten, w[..n])
    requires OccursAt(s, FontClose + (gap + (w + rest)), g)
    ensures TailAt(AsWritten, s, g).None?
  {
    var k0 := g + |FontClose| + |gap|;
    assert (w + rest)[0] == w[..n][0];
    TailGap(s, g, gap, w + rest, k0);
    SignRun(s, k0, w, rest, n);
    TailStopsAt(s, g, k0, k0 + n);
  }

  /** The number of the class as written stops at the `+`, where no `</a>` follows. */
  lemma SignRun(s: string, k1: nat, w: string, rest: string, n: nat)
    requires 0 < n < |w| && w[n] == '+' && IsNumber(AsWritten, w[..n]) && OccursAt(s, w + rest, k1)
    ensures NumberEnd(AsWritten, s, k1) == k1 + n && SkipSpace(s, k1 + n) == k1 + n
    ensures !OccursAt(s, LinkClose, k1 + n)
  {
    Peel(s, k1, w, rest);
    forall t | k1 <= t < k1 + n
      ensures IsNumberChar(AsWritten, s[t])
    {
      assert s[t] == w[t - k1] == w[..n][t - k1];
    }
    assert s[k1 + n] == '+' by {
      assert s[k1 + n] == w[n];
    }
    NumberEndAt(AsWritten, s, k1, k1 + n);
    SkipSpaceAt(s, k1 + n, k1 + n);
    assert !OccursAt(s, LinkClose, k1 + n) by {
      if k1 + n + |LinkClose| <= |s| {
        assert s[k1 + n..k1 + n + |LinkClose|][0] == s[k1 + n];
      }
    }
  }

  /** The tail at `g` fails when its number ends where no `</a>` follows. */
  lemma TailStopsAt(s: string, g: nat, k0: nat, k1: nat)
    requires OccursAt(s, FontClose, g) && SkipSpace(s, g + |FontClose|) == k0
    requires NumberEnd(AsWritten, s, k0) == k1 && SkipSpace(s, k1) == k1 && !OccursAt(s, LinkClose, k1)
    ensures TailAt(AsWritten, s, g).None?
  {
  }

  /** Where the two links sit in the page. */
  lemma PlusPageLayout()
    ensures |PlusPage| == 69
    ensures OccursAt(PlusPage, LinkText(SignedLink), 0)
    ensures OccursAt(PlusPage, LinkText(PlainLink), 36)
  {
    var w1, w2 := LinkText(SignedLink), LinkText(PlainLink);
    assert |w1| == 36 && |w2| == 33;
    assert PlusPage[0..36] == w1;
    assert PlusPage[36..69] == w2;
  }

  /** The parts of the first link, from its font text on. */
  lemma SignedParts(s: string)
    requires OccursAt(s, LinkText(SignedLink), 0)
    ensures OccursAt(s, ">", 20) && OccursAt(s, FontClose + ("" + ("1e+2" + ("" + LinkClose))), 21)
    ensures OccursAt(s, "1e+2", 28) && OccursAt(s, LinkClose, 32)
  {
    var x := "" + ("1e+2" + ("" + LinkClose));
    FontPartAt(s, 0, "", "1", "", ">" + (FontClose + x));
    Peel(s, 20, ">", FontClose + x);
    Peel(s, 21, FontClose, x);
    Peel(s, 28, "", "1e+2" + ("" + LinkClose));
    Peel(s, 28, "1e+2", "" + LinkClose);
    Peel(s, 32, "", LinkClose);
  }

  /** The parts of the second link, up to its `</font>`. */
  lemma PlainParts(s: string)
    requires OccursAt(s, LinkText(PlainLink), 36)
    ensures OccursAt(s, Anchor, 36) && OccursAt(s, "2", 50) && OccursAt(s, FontOpen, 51)
    ensures OccursAt(s, ">", 56) && OccursAt(s, FontClose + ("" + ("3" + ("" + LinkClose))), 57)
  {
    var rest := ">" + TailText(PlainLink);
    Peel(s, 36, Anchor, "" + ("2" + ("" + (FontOpen + rest))));
    Peel(s, 50, "", "2" + ("" + (FontOpen + rest)));
    Peel(s, 50, "2", "" + (FontOpen + rest));
    Peel(s, 51, "", FontOpen + rest);
    Peel(s, 51, FontOpen, rest);
    Peel(s, 56, ">", TailText(PlainLink));
  }

  /** A `</font>` at `g` leaves `/font>` at `g + 1`. */
  lemma CloseRest(s: string, g: nat)
    requires OccursAt(s, FontClose, g)
    ensures OccursAt(s, FontClose[1..], g + 1)
  {
    assert s[g + 1..g + |FontClose|] == s[g..g + |FontClose|][1..];
  }

  /** The first link's pieces after its `</font>` start no `</f`. */
  lemma SignedPiecesFree()
    ensures NoCloseStarts(FontClose[1..]) && NoCloseStarts("1e+2") && NoCloseStarts(LinkClose)
  {
    assert FontClose[1..] == "/font>";
  }

  /** The second link's pieces up to its `</font>` start no `</f`. */
  lemma PlainPiecesFree()
    ensures NoCloseStarts(Anchor) && NoCloseStarts("2") && NoCloseStarts(FontOpen) && NoCloseStarts(">")
  {
  }

  /**
   * Over the first link's font text and tail no tail matches under the class as written,
   * so the lazy `.*?` from the first link's font text runs on past the link.
   */
  lemma SignedSkipped(s: string)
    requires OccursAt(s, ">", 20) && OccursAt(s, FontClose + ("" + ("1e+2" + ("" + LinkClose))), 21)
    requires OccursAt(s, "1e+2", 28) && OccursAt(s, LinkClose, 32)
    ensures FirstTail(AsWritten, s, 20) == FirstTail(AsWritten, s, 36)
  {
    var k := AsWritten;
    SignedPiecesFree();
    FontSkipped(k, s, 20, ">");
    FirstTailSkip(k, s, 20, 21);
    SignStopsTail(s, 21, "", "1e+2", "" + LinkClose, 2);
    FirstTailStep(k, s, 21);
    Peel(s, 21, FontClose, "" + ("1e+2" + ("" + LinkClose)));
    CloseRest(s, 21);
    NoTailWithin(k, s, 22, FontClose[1..]);
    FirstTailSkip(k, s, 22, 28);
    NoTailWithin(k, s, 28, "1e+2");
    FirstTailSkip(k, s, 28, 32);
    NoTailWithin(k, s, 32, LinkClose);
    FirstTailSkip(k, s, 32, 36);
  }

  /** Over the second link up to its `</font>` no tail matches either. */
  lemma PlainSkipped(s: string)
    requires OccursAt(s, Anchor, 36) && OccursAt(s, "2", 50) && OccursAt(s, FontOpen, 51)
    requires OccursAt(s, ">", 56)
    ensures FirstTail(AsWritten, s, 36) == FirstTail(AsWritten, s, 57)
  {
    var k := AsWritten;
    PlainPiecesFree();
    NoTailWithin(k, s, 36, Anchor);
    FirstTailSkip(k, s, 36, 50);
    NoTailWithin(k, s, 50, "2");
    FirstTailSkip(k, s, 50, 51);
    NoTailWithin(k, s, 51, FontOpen);
    FirstTailSkip(k, s, 51, 56);
    NoTailWithin(k, s, 56, ">");
    FirstTailSkip(k, s, 56, 57);
  }

  /** At the second link's `</font>` the tail matches and captures `3`. */
  lemma PlainTail(s: string)
    requires OccursAt(s, FontClose + ("" + ("3" + ("" + LinkClose))), 57)
    ensures TailAt(AsWritten, s, 57) == Some(Tail("3", 69))
  {
    TailOfLink(AsWritten, s, 57, "", "3", "", 69);
  }

  /**
   * As written, the class lacks `+`: the tail fails at the first link's `</font>`, the
   * lazy `.*?` runs on to the second link's `</font>`, and the first cross section is
   * paired with the second link's uncertainty; the second link is swallowed.
   */
  lemma PlusExponentMispairs()
    ensures CrossSections(AsWritten, PlusPage) == [CrossSection("1", "3")]
  {
    var s, k := PlusPage, AsWritten;
    PlusPageLayout();
    LinkHead(k, s, 0, "", "1", "", ">" + TailText(SignedLink), 20);
    SignedParts(s);
    PlainParts(s);
    SignedSkipped(s);
    PlainSkipped(s);
    PlainTail(s);
    FirstTailAt(k, s, 57, 57);
    MatchFromHead(k, s, 0, "1", 20, Tail("3", 69));
    FindCsAt(k, s, 0, 0);
    FindThenRest(k, s, 0, CsMatch(0, "1", "3", 69));
    assert !OccursAt(s, Results, 69);
    assert FindCs(k, s, 69).None?;
  }

  /** With `+` in the class the same page reads back as both links' pairs. */
  lemma PlusExponentPairs()
    ensures CrossSections(WithPlus, PlusPage) ==
            [CrossSection("1", "1e+2"), CrossSection("2", "3")]
  {
    var seps := ["", "", ""];
    var links := [SignedLink, PlainLink];
    PlusPageReport();
    PlusPageReportable();
    ReportRoundTrip(WithPlus, seps, links);
  }

  /** The page is the two links laid out with empty separators. */
  lemma PlusPageReport()
    ensures Report(["", "", ""], [SignedLink, PlainLink]) == PlusPage
  {
    var seps := ["", "", ""];
    var links := [SignedLink, PlainLink];
    assert Report(seps[2..], links[2..]) == "";
    assert Report(seps[1..], links[1..]) == LinkText(PlainLink);
  }

  /** With `+` in the class both links are read back. */
  lemma PlusPageReportable()
    ensures Reportable(WithPlus, ["", "", ""], [SignedLink, PlainLink])
  {
    assert IsNumber(WithPlus, "1e+2");
    assert AnchorFree("");
  }

}
