/** Characters with page positions, as the PDF layer hands them to the
    column-based segmenters, and the stable sort by left edge that every one of
    them applies (Python's `list.sort(key=lambda c: c['x0'])`). */
module Positioned {
  import opened Wrappers

  /** One character of a page: its text, its left edge, its baseline and, when
      the page reports one, its width. */
  datatype PChar = PChar(text: string, x0: real, y0: real, width: Option<real>)

  predicate SortedByX(s: seq<PChar>) {
    forall i, j :: 0 <= i < j < |s| ==> s[i].x0 <= s[j].x0
  }

  /** The characters of `s` whose left edge is `x`, in their order in `s`. */
  function At(s: seq<PChar>, x: real): seq<PChar> {
    if s == [] then []
    else At(s[..|s| - 1], x) + (if s[|s| - 1].x0 == x then [s[|s| - 1]] else [])
  }

  /** `c` placed after every character whose left edge is at most its own: where
      a stable sort puts the last element. */
  function InsertByX(s: seq<PChar>, c: PChar): seq<PChar> {
    if s == [] || s[|s| - 1].x0 <= c.x0 then s + [c]
    else InsertByX(s[..|s| - 1], c) + [s[|s| - 1]]
  }

  /** The stable sort by left edge. */
  function SortByX(s: seq<PChar>): seq<PChar> {
    if s == [] then [] else InsertByX(SortByX(s[..|s| - 1]), s[|s| - 1])
  }

  // ---------------------------------------------------------------------------
  // What the sort promises

  lemma {:induction false} InsertKeepsElements(s: seq<PChar>, c: PChar)
    ensures multiset(InsertByX(s, c)) == multiset(s) + multiset{c}
    decreases |s|
  {
    if s != [] && s[|s| - 1].x0 > c.x0 {
      var t := s[..|s| - 1];
      InsertKeepsElements(t, c);
      assert s == t + [s[|s| - 1]];
    }
  }

  lemma {:induction false} InsertKeepsSorted(s: seq<PChar>, c: PChar)
    requires SortedByX(s)
    ensures SortedByX(InsertByX(s, c))
    decreases |s|
  {
    if s != [] && s[|s| - 1].x0 > c.x0 {
      var t := s[..|s| - 1];
      InsertKeepsSorted(t, c);
      InsertKeepsElements(t, c);
      var r := InsertByX(t, c);
      var last := s[|s| - 1];
      forall k | 0 <= k < |r| ensures r[k].x0 <= last.x0 {
        assert r[k] in multiset(r);
        assert r[k] in multiset(t) + multiset{c};
        if r[k] in multiset(t) {
          var m :| 0 <= m < |t| && t[m] == r[k];
        }
      }
    }
  }

  /** The characters at each left edge keep their order: inserting `c` adds it
      after the others at its own edge. */
  lemma {:induction false} InsertKeepsOrderAt(s: seq<PChar>, c: PChar, x: real)
    requires SortedByX(s)
    ensures At(InsertByX(s, c), x) == At(s, x) + (if c.x0 == x then [c] else [])
    decreases |s|
  {
    if s == [] || s[|s| - 1].x0 <= c.x0 {
      AtSnoc(s, c, x);
    } else {
      var t := s[..|s| - 1];
      var last := s[|s| - 1];
      assert s == t + [last];
      InsertKeepsOrderAt(t, c, x);
      InsertBeforeLast(t, last, c, x);
    }
  }

  /** The step of InsertKeepsOrderAt where `c` goes before the last character. */
  lemma InsertBeforeLast(t: seq<PChar>, last: PChar, c: PChar, x: real)
    requires last.x0 > c.x0
    requires At(InsertByX(t, c), x) == At(t, x) + (if c.x0 == x then [c] else [])
    ensures At(InsertByX(t + [last], c), x) == At(t + [last], x) + (if c.x0 == x then [c] else [])
  {
    assert (t + [last])[..|t|] == t;
    AtSnoc(InsertByX(t, c), last, x);
    AtSnoc(t, last, x);
  }

  lemma AtSnoc(t: seq<PChar>, c: PChar, x: real)
    ensures At(t + [c], x) == At(t, x) + (if c.x0 == x then [c] else [])
  {
    assert (t + [c])[..|t|] == t;
  }

  /** The sort returns the characters it was given, ordered by left edge. */
  lemma {:induction false} SortByXSorted(s: seq<PChar>)
    ensures SortedByX(SortByX(s)) && multiset(SortByX(s)) == multiset(s)
    decreases |s|
  {
    if s != [] {
      var t := s[..|s| - 1];
      SortByXSorted(t);
      InsertKeepsSorted(SortByX(t), s[|s| - 1]);
      InsertKeepsElements(SortByX(t), s[|s| - 1]);
      assert s == t + [s[|s| - 1]];
    }
  }

  /** The sort is stable: characters with the same left edge stay in input order. */
  lemma {:induction false} SortByXStable(s: seq<PChar>, x: real)
    ensures At(SortByX(s), x) == At(s, x)
    decreases |s|
  {
    if s != [] {
      var t := s[..|s| - 1];
      SortByXStable(t, x);
      SortByXSorted(t);
      InsertKeepsOrderAt(SortByX(t), s[|s| - 1], x);
    }
  }

  // ---------------------------------------------------------------------------
  // The sort in place

  /** `chars.sort(key=lambda c: c['x0'])` on the caller's list: an insertion sort
      whose result is SortByX of the old contents. */
  method SortCharsByX(a: array<PChar>)
    modifies a
    ensures a[..] == SortByX(old(a[..]))
  {
    ghost var orig := a[..];
    var i := 0;
    while i < a.Length
      invariant 0 <= i <= a.Length
      invariant a[..i] == SortByX(orig[..i])
      invariant a[i..] == orig[i..]
    {
      InsertAt(a, i);
      SortByXPrefix(orig, i);
      i := i + 1;
    }
    assert orig[..a.Length] == orig;
  }

  /** Sorting one more character of the input inserts it into the sorted prefix. */
  lemma SortByXPrefix(s: seq<PChar>, i: nat)
    requires i < |s|
    ensures SortByX(s[..i + 1]) == InsertByX(SortByX(s[..i]), s[i])
  {
    assert s[..i + 1][..i] == s[..i];
  }

  /** One pass of the insertion sort: `a[i]` moves left past every larger left
      edge. */
  method InsertAt(a: array<PChar>, i: nat)
    requires i < a.Length
    modifies a
    ensures a[..i + 1] == InsertByX(old(a[..i]), old(a[i]))
    ensures a[i + 1..] == old(a[i + 1..])
  {
    ghost var s := a[..i];
    var c := a[i];
    var j := ShiftLarger(a, i, c);
    InsertAfterSmaller(s, c, j);
    a[j] := c;
    Splice(s, c, j, a[..i + 1]);
    assert a[i + 1..] == old(a[i + 1..]);
  }

  /** The inner loop: every character of `a[..i]` with a larger left edge than
      `c` moves one place right, leaving a gap at the returned index. */
  method ShiftLarger(a: array<PChar>, i: nat, c: PChar) returns (j: nat)
    requires i < a.Length
    modifies a
    ensures j <= i
    ensures forall k :: 0 <= k < j ==> a[k] == old(a[k])
    ensures forall k :: j < k <= i ==> a[k] == old(a[k - 1])
    ensures forall k :: i < k < a.Length ==> a[k] == old(a[k])
    ensures j == 0 || old(a[j - 1]).x0 <= c.x0
    ensures forall k :: j <= k < i ==> old(a[k]).x0 > c.x0
  {
    ghost var orig := a[..];
    j := i;
    while j > 0 && a[j - 1].x0 > c.x0
      invariant 0 <= j <= i
      invariant forall k :: 0 <= k < j ==> a[k] == orig[k]
      invariant forall k :: j < k <= i ==> a[k] == orig[k - 1]
      invariant forall k :: i < k < a.Length ==> a[k] == orig[k]
      invariant forall k :: j <= k < i ==> orig[k].x0 > c.x0
    {
      a[j] := a[j - 1];
      j := j - 1;
    }
  }

  /** Inserting `c` puts it after the last character whose left edge is at most
      its own. */
  lemma {:induction false} InsertAfterSmaller(s: seq<PChar>, c: PChar, j: nat)
    requires j <= |s| && (j == 0 || s[j - 1].x0 <= c.x0)
    requires forall k :: j <= k < |s| ==> s[k].x0 > c.x0
    ensures InsertByX(s, c) == s[..j] + [c] + s[j..]
    decreases |s|
  {
    if j < |s| {
      var t := s[..|s| - 1];
      InsertAfterSmaller(t, c, j);
      assert t[..j] == s[..j] && t[j..] + [s[|s| - 1]] == s[j..];
    } else {
      assert s[..j] == s;
    }
  }

  /** The array after the final write, read as a sequence. */
  lemma Splice(s: seq<PChar>, c: PChar, j: nat, t: seq<PChar>)
    requires j <= |s| && |t| == |s| + 1
    requires forall k :: 0 <= k < j ==> t[k] == s[k]
    requires t[j] == c
    requires forall k :: j < k < |t| ==> t[k] == s[k - 1]
    ensures t == s[..j] + [c] + s[j..]
  {
  }

  // ---------------------------------------------------------------------------
  // Selecting characters

  function Abs(r: real): real {
    if r < 0.0 then -r else r
  }

  /** The selections the segmenters make: the characters within `tol` of the
      baseline `y`, those left of `x`, those from `x` on, and those in the
      half-open range from `lo` to `hi`. */
  datatype Band = NearRow(y: real, tol: real) | Below(x: real) | From(x: real) | Span(lo: real, hi: real)

  predicate InBand(c: PChar, b: Band) {
    match b
    case NearRow(y, tol) => Abs(c.y0 - y) <= tol
    case Below(x) => c.x0 < x
    case From(x) => c.x0 >= x
    case Span(lo, hi) => lo <= c.x0 < hi
  }

  /** The characters of `s` in band `b`, in their order in `s` (a list
      comprehension with a condition). */
  function Select(s: seq<PChar>, b: Band): (r: seq<PChar>)
    ensures |r| <= |s|
  {
    if s == [] then []
    else Select(s[..|s| - 1], b) + (if InBand(s[|s| - 1], b) then [s[|s| - 1]] else [])
  }

  /** Selection keeps each character of the band as often as `s` has it and drops
      every other character. */
  lemma {:induction false} SelectCount(s: seq<PChar>, b: Band, c: PChar)
    ensures multiset(Select(s, b))[c] == if InBand(c, b) then multiset(s)[c] else 0
    decreases |s|
  {
    if s != [] {
      var t := s[..|s| - 1];
      var last := s[|s| - 1];
      SelectCount(t, b, c);
      assert s == t + [last];
      assert multiset(s) == multiset(t) + multiset{last};
      assert Select(s, b) == Select(t, b) + (if InBand(last, b) then [last] else []);
    }
  }

  lemma SelectMember(s: seq<PChar>, b: Band, c: PChar)
    requires c in Select(s, b)
    ensures c in s && InBand(c, b)
  {
    SelectCount(s, b, c);
    assert c in multiset(Select(s, b));
  }

  /** Selection keeps the order of its input, so a selection of a sorted row is
      sorted. */
  lemma {:induction false} SelectSorted(s: seq<PChar>, b: Band)
    requires SortedByX(s)
    ensures SortedByX(Select(s, b))
    decreases |s|
  {
    if s != [] {
      var t := s[..|s| - 1];
      var last := s[|s| - 1];
      SelectSorted(t, b);
      var r := Select(t, b);
      forall k | 0 <= k < |r| ensures r[k].x0 <= last.x0 {
        SelectMember(t, b, r[k]);
        var m :| 0 <= m < |t| && t[m] == r[k];
      }
    }
  }

  /** The characters' texts concatenated. */
  function Texts(cs: seq<PChar>): string {
    if cs == [] then "" else Texts(cs[..|cs| - 1]) + cs[|cs| - 1].text
  }
}
