/**
 * Character classes, substring search, splitting, joining, trimming and decimal
 * rendering, each with the exact meaning the Java library or regex class has.
 */
module Text {
  import opened Wrappers

  /** Java's regex class `\s`: space, tab, newline, vertical tab, form feed, return. */
  predicate IsSpace(c: char) {
    c == ' ' || c == '\t' || c == '\n' || c == '\r' || c as int == 0x0B || c as int == 0x0C
  }

  /** Java's regex class `\d`: an ASCII digit. */
  predicate IsDigit(c: char) {
    '0' <= c <= '9'
  }

  predicate AllDigits(s: string) {
    forall k :: 0 <= k < |s| ==> IsDigit(s[k])
  }

  predicate NoSpace(s: string) {
    forall k :: 0 <= k < |s| ==> !IsSpace(s[k])
  }

  /** `\s*`: white space only, possibly none. */
  predicate AllSpace(w: string) {
    forall k :: 0 <= k < |w| ==> IsSpace(w[k])
  }

  // ---------------------------------------------------------------- searching

  /** `pat` occurs in `s` starting at index `i`. */
  predicate OccursAt(s: string, pat: string, i: int) {
    0 <= i && i + |pat| <= |s| && s[i..i + |pat|] == pat
  }

  /** An occurrence inside a prefix is an occurrence in the whole text. */
  lemma OccursInPrefix(s: string, n: nat, pat: string, i: int)
    requires n <= |s|
    ensures OccursAt(s[..n], pat, i) ==> OccursAt(s, pat, i)
  {
    if OccursAt(s[..n], pat, i) {
      assert s[i..i + |pat|] == s[..n][i..i + |pat|];
    }
  }

  /** An occurrence inside a suffix is an occurrence in the whole text, shifted. */
  lemma OccursInSuffix(s: string, n: nat, pat: string, j: int)
    requires n <= |s|
    ensures OccursAt(s[n..], pat, j) ==> OccursAt(s, pat, n + j)
  {
    if OccursAt(s[n..], pat, j) {
      assert s[n + j..n + j + |pat|] == s[n..][j..j + |pat|];
    }
  }

  /** The leftmost occurrence of `pat` in `s` at or after `from`. */
  function FindFirst(s: string, pat: string, from: nat): (r: Option<nat>)
    ensures r.Some? ==> from <= r.value && OccursAt(s, pat, r.value)
    ensures r.Some? ==> forall i :: from <= i < r.value ==> !OccursAt(s, pat, i)
    ensures r.None? ==> forall i :: from <= i ==> !OccursAt(s, pat, i)
    decreases |s| - from
  {
    if |s| < from + |pat| then None
    else if OccursAt(s, pat, from) then Some(from)
    else FindFirst(s, pat, from + 1)
  }

  /** The rightmost occurrence of `pat` in `s` that starts below `bound`. */
  function FindLast(s: string, pat: string, bound: nat): (r: Option<nat>)
    ensures r.Some? ==> r.value < bound && OccursAt(s, pat, r.value)
    ensures r.Some? ==> forall i :: r.value < i < bound ==> !OccursAt(s, pat, i)
    ensures r.None? ==> forall i :: i < bound ==> !OccursAt(s, pat, i)
    decreases bound
  {
    if bound == 0 then None
    else if OccursAt(s, pat, bound - 1) then Some(bound - 1)
    else FindLast(s, pat, bound - 1)
  }

  /** The end of the run of non-`\s` characters that starts at `j`. */
  function WordEnd(s: string, j: nat): (k: nat)
    requires j <= |s|
    ensures j <= k <= |s|
    ensures forall t :: j <= t < k ==> !IsSpace(s[t])
    ensures k < |s| ==> IsSpace(s[k])
    decreases |s| - j
  {
    if j == |s| || IsSpace(s[j]) then j else WordEnd(s, j + 1)
  }

  /** The end of the run of `\s` characters that starts at `j` (a greedy `\s*`). */
  function SkipSpace(s: string, j: nat): (k: nat)
    requires j <= |s|
    ensures j <= k <= |s|
    ensures forall t :: j <= t < k ==> IsSpace(s[t])
    ensures k < |s| ==> !IsSpace(s[k])
    decreases |s| - j
  {
    if j < |s| && IsSpace(s[j]) then SkipSpace(s, j + 1) else j
  }

  /** A run of non-space characters from `j` that stops at white space or the end ends there. */
  lemma {:induction false} WordEndAt(s: string, j: nat, k: nat)
    requires j <= k <= |s|
    requires forall t :: j <= t < k ==> !IsSpace(s[t])
    requires k == |s| || IsSpace(s[k])
    ensures WordEnd(s, j) == k
    decreases k - j
  {
    if j < k {
      WordEndAt(s, j + 1, k);
    }
  }

  /** White space from `j` that stops at a non-space character or the end is skipped to there. */
  lemma {:induction false} SkipSpaceAt(s: string, j: nat, k: nat)
    requires j <= k <= |s|
    requires forall t :: j <= t < k ==> IsSpace(s[t])
    requires k == |s| || !IsSpace(s[k])
    ensures SkipSpace(s, j) == k
    decreases k - j
  {
    if j < k {
      SkipSpaceAt(s, j + 1, k);
    }
  }

  // ------------------------------------------------------- splitting, joining

  /** Every piece between occurrences of `d`, empty pieces included. */
  function SplitOn(s: string, d: char): (parts: seq<string>)
    ensures |parts| >= 1
    ensures forall k :: 0 <= k < |parts| ==> d !in parts[k]
  {
    if s == [] then [""]
    else if s[0] == d then [""] + SplitOn(s[1..], d)
    else
      var rest := SplitOn(s[1..], d);
      [[s[0]] + rest[0]] + rest[1..]
  }

  /** Java's `String.join`: the parts with `d` between neighbours. */
  function Join(parts: seq<string>, d: char): string
  {
    if parts == [] then ""
    else if |parts| == 1 then parts[0]
    else parts[0] + [d] + Join(parts[1..], d)
  }

  /** Java's `String.split` on a one-character regex with the default limit 0. */
  function JavaSplit(s: string, d: char): (parts: seq<string>)
    ensures forall k :: 0 <= k < |parts| ==> d !in parts[k]
    ensures d !in s ==> parts == [s]
    ensures d in s ==> |parts| == 0 || parts[|parts| - 1] != ""
  {
    if d !in s then [s] else DropTrailingEmpty(SplitOn(s, d))
  }

  function DropTrailingEmpty(parts: seq<string>): (r: seq<string>)
    ensures |r| <= |parts| && r == parts[..|r|]
    ensures |r| == 0 || r[|r| - 1] != ""
    ensures forall k :: |r| <= k < |parts| ==> parts[k] == ""
  {
    if parts == [] || parts[|parts| - 1] != "" then parts
    else DropTrailingEmpty(parts[..|parts| - 1])
  }

  lemma {:induction false} SplitOnCons(a: string, d: char, b: string)
    requires d !in a
    ensures SplitOn(a + [d] + b, d) == [a] + SplitOn(b, d)
    decreases |a|
  {
    if a == [] {
      assert a + [d] + b == [d] + b;
      assert ([d] + b)[1..] == b;
    } else {
      SplitOnCons(a[1..], d, b);
      assert (a + [d] + b)[1..] == a[1..] + [d] + b;
      assert [a[0]] + a[1..] == a;
    }
  }

  lemma {:induction false} SplitOnNoDelimiter(s: string, d: char)
    requires d !in s
    ensures SplitOn(s, d) == [s]
    decreases |s|
  {
    if s != [] {
      SplitOnNoDelimiter(s[1..], d);
      assert [s[0]] + s[1..] == s;
    }
  }

  /** Splitting a join on its separator gives the parts back. */
  lemma {:induction false} SplitJoin(parts: seq<string>, d: char)
    requires |parts| >= 1
    requires forall k :: 0 <= k < |parts| ==> d !in parts[k]
    ensures SplitOn(Join(parts, d), d) == parts
    decreases |parts|
  {
    if |parts| == 1 {
      SplitOnNoDelimiter(parts[0], d);
    } else {
      SplitJoin(parts[1..], d);
      SplitOnCons(parts[0], d, Join(parts[1..], d));
      assert [parts[0]] + parts[1..] == parts;
    }
  }

  /** Joining the pieces of a split rebuilds the text. */
  lemma {:induction false} JoinSplit(s: string, d: char)
    ensures Join(SplitOn(s, d), d) == s
    decreases |s|
  {
    if s != [] {
      JoinSplit(s[1..], d);
      var rest := SplitOn(s[1..], d);
      if s[0] != d {
        assert [s[0]] + s[1..] == s;
        if |rest| > 1 {
          assert ([[s[0]] + rest[0]] + rest[1..])[1..] == rest[1..];
          assert Join(rest, d) == rest[0] + [d] + Join(rest[1..], d);
        }
      } else {
        assert ([""] + rest)[1..] == rest;
        assert [d] + s[1..] == s;
      }
    }
  }

  lemma {:induction false} NotInJoin(parts: seq<string>, d: char, c: char)
    requires c != d
    requires forall k :: 0 <= k < |parts| ==> c !in parts[k]
    ensures c !in Join(parts, d)
    decreases |parts|
  {
    if |parts| > 1 {
      NotInJoin(parts[1..], d, c);
    }
  }

  // ---------------------------------------------------------------- trimming

  /** Java's `String.trim` removes every character up to U+0020 at either end. */
  predicate Trimmable(c: char) {
    c <= ' '
  }

  predicate IsTrimmed(s: string) {
    s == [] || (!Trimmable(s[0]) && !Trimmable(s[|s| - 1]))
  }

  function TrimStart(s: string, a: nat): (b: nat)
    requires a <= |s|
    ensures a <= b <= |s|
    ensures forall t :: a <= t < b ==> Trimmable(s[t])
    ensures b < |s| ==> !Trimmable(s[b])
    decreases |s| - a
  {
    if a < |s| && Trimmable(s[a]) then TrimStart(s, a + 1) else a
  }

  function TrimEnd(s: string, a: nat, b: nat): (e: nat)
    requires a <= b <= |s|
    ensures a <= e <= b
    ensures forall t :: e <= t < b ==> Trimmable(s[t])
    ensures a < e ==> !Trimmable(s[e - 1])
    decreases b
  {
    if a < b && Trimmable(s[b - 1]) then TrimEnd(s, a, b - 1) else b
  }

  /** Java's `String.trim`. */
  function Trim(s: string): (r: string)
    ensures IsTrimmed(r)
  {
    var a := TrimStart(s, 0);
    var e := TrimEnd(s, a, |s|);
    s[a..e]
  }

  /** Trimming removes only characters up to the space, and only at the two ends. */
  lemma TrimIsSlice(s: string)
    ensures exists a, b ::
              && 0 <= a <= b <= |s| && Trim(s) == s[a..b]
              && (forall t :: 0 <= t < a ==> Trimmable(s[t]))
              && (forall t :: b <= t < |s| ==> Trimmable(s[t]))
  {
    var a := TrimStart(s, 0);
    var e := TrimEnd(s, a, |s|);
    assert Trim(s) == s[a..e];
  }

  /** Trimming text that has nothing to trim returns it unchanged. */
  lemma TrimOfTrimmed(s: string)
    requires IsTrimmed(s)
    ensures Trim(s) == s
  {
    assert TrimStart(s, 0) == 0;
    assert s[0..|s|] == s;
  }

  /** Trimming text padded at both ends with characters up to the space removes the padding. */
  lemma TrimPadded(a: string, t: string, b: string)
    requires forall k :: 0 <= k < |a| ==> Trimmable(a[k])
    requires forall k :: 0 <= k < |b| ==> Trimmable(b[k])
    requires t != [] && IsTrimmed(t)
    ensures Trim(a + t + b) == t
  {
    var s := a + t + b;
    TrimStartAt(s, 0, |a|);
    TrimEndAt(s, |a|, |s|, |a| + |t|);
    assert s[|a|..|a| + |t|] == t;
  }

  lemma {:induction false} TrimStartAt(s: string, j: nat, k: nat)
    requires j <= k < |s| && !Trimmable(s[k])
    requires forall t :: j <= t < k ==> Trimmable(s[t])
    ensures TrimStart(s, j) == k
    decreases k - j
  {
    if j < k {
      TrimStartAt(s, j + 1, k);
    }
  }

  lemma {:induction false} TrimEndAt(s: string, a: nat, b: nat, e: nat)
    requires a < e <= b <= |s| && !Trimmable(s[e - 1])
    requires forall t :: e <= t < b ==> Trimmable(s[t])
    ensures TrimEnd(s, a, b) == e
    decreases b
  {
    if e < b {
      TrimEndAt(s, a, b - 1, e);
    }
  }

  /** Trimming twice is trimming once. */
  lemma TrimIdempotent(s: string)
    ensures Trim(Trim(s)) == Trim(s)
  {
    TrimOfTrimmed(Trim(s));
  }

  /**
   * Java's `split` undoes `String.join` on the same separator when no part holds the
   * separator and the last part is not empty (Java drops trailing empty strings).
   */
  lemma JavaSplitJoin(parts: seq<string>, d: char)
    requires |parts| >= 1 && parts[|parts| - 1] != ""
    requires forall k :: 0 <= k < |parts| ==> d !in parts[k]
    ensures JavaSplit(Join(parts, d), d) == parts
  {
    SplitJoin(parts, d);
    if |parts| == 1 {
      assert Join(parts, d) == parts[0];
    } else {
      var j := Join(parts, d);
      assert j == parts[0] + [d] + Join(parts[1..], d);
      assert j[|parts[0]|] == d;
    }
  }

  // ------------------------------------------------------------ decimal text

  function DigitChar(n: nat): (c: char)
    requires n < 10
    ensures IsDigit(c) && c as int - '0' as int == n
  {
    ('0' as int + n) as char
  }

  /** Java's `%d` of a non-negative int: its decimal digits, no sign, no padding. */
  function NatToString(n: nat): (r: string)
    ensures |r| >= 1 && AllDigits(r)
    ensures |r| > 1 ==> r[0] != '0'
  {
    if n < 10 then [DigitChar(n)] else NatToString(n / 10) + [DigitChar(n % 10)]
  }

  /** The number that a run of decimal digits denotes. */
  function DigitsValue(s: string): nat
    requires AllDigits(s)
  {
    if s == [] then 0
    else DigitsValue(s[..|s| - 1]) * 10 + (s[|s| - 1] as int - '0' as int)
  }

  /** Reading the rendered digits back gives the number. */
  lemma {:induction false} DigitsValueOfNatToString(n: nat)
    ensures DigitsValue(NatToString(n)) == n
    decreases n
  {
    if n >= 10 {
      DigitsValueOfNatToString(n / 10);
      var r := NatToString(n);
      assert r[..|r| - 1] == NatToString(n / 10);
    }
  }

  /** Distinct numbers render to distinct text. */
  lemma NatToStringInjective(m: nat, n: nat)
    requires NatToString(m) == NatToString(n)
    ensures m == n
  {
    DigitsValueOfNatToString(m);
    DigitsValueOfNatToString(n);
  }
}
