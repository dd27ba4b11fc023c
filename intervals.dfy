/** Time ranges in seconds, as the `(start, end)` tuples the pipeline passes
    around, with the two operations shared by the video processor and the
    recogniser adapter: sorting by start and merging with a gap tolerance. */
module Intervals {

  /** A `(start, end)` pair in seconds. Nothing forces `start <= end`: the
      operations are total and the predicates below say when a list is tidy. */
  datatype Interval = Interval(start: real, end: real)

  function Max(a: real, b: real): real { if a >= b then a else b }

  function Min(a: real, b: real): real { if a <= b then a else b }

  /** `inner` lies inside `outer`. */
  predicate Within(inner: Interval, outer: Interval)
  {
    outer.start <= inner.start && inner.end <= outer.end
  }

  /** The point `x` lies in the half-open range `[start, end)`. */
  predicate Contains(iv: Interval, x: real)
  {
    iv.start <= x < iv.end
  }

  /** The open interiors of `a` and `b` meet. */
  predicate Overlap(a: Interval, b: Interval)
  {
    a.start < b.end && b.start < a.end
  }

  /** Some range of `s` contains `x`. */
  predicate Covers(s: seq<Interval>, x: real)
  {
    exists iv :: iv in s && Contains(iv, x)
  }

  /** Some range of `s` contains the whole of `iv`. */
  predicate InsideSome(iv: Interval, s: seq<Interval>)
  {
    exists outer :: outer in s && Within(iv, outer)
  }

  predicate SortedByStart(s: seq<Interval>)
  {
    forall i, j :: 0 <= i < j < |s| ==> s[i].start <= s[j].start
  }

  /** Each range ends more than `gap` before the next one starts. */
  predicate Separated(s: seq<Interval>, gap: real)
  {
    forall k :: 0 <= k < |s| - 1 ==> s[k].end + gap < s[k + 1].start
  }

  /** Every range ends no later than any range after it starts:
      the list is in order and no two interiors overlap. */
  predicate Ordered(s: seq<Interval>)
  {
    forall i, j :: 0 <= i < j < |s| ==> s[i].end <= s[j].start
  }

  /** Every range has positive length. */
  predicate AllProper(s: seq<Interval>)
  {
    forall k :: 0 <= k < |s| ==> s[k].start < s[k].end
  }

  predicate AllWellFormed(s: seq<Interval>)
  {
    forall k :: 0 <= k < |s| ==> s[k].start <= s[k].end
  }

  /** Concatenating two ordered lists, the first ending before the second
      starts, gives an ordered list. */
  lemma OrderedConcat(s: seq<Interval>, t: seq<Interval>, bound: real)
    requires Ordered(s) && Ordered(t)
    requires forall q :: q in s ==> q.end <= bound
    requires forall q :: q in t ==> bound <= q.start
    ensures Ordered(s + t)
  {
    forall i, j | 0 <= i < j < |s + t| ensures (s + t)[i].end <= (s + t)[j].start {
      if i < |s| && j >= |s| {
        assert s[i] in s && t[j - |s|] in t;
      }
    }
  }

  /** Every range of `s` lies inside `[lo, hi]`. */
  predicate AllWithin(s: seq<Interval>, lo: real, hi: real)
  {
    forall k :: 0 <= k < |s| ==> lo <= s[k].start && s[k].end <= hi
  }

  lemma CoversAppend(s: seq<Interval>, t: seq<Interval>, x: real)
    ensures Covers(s + t, x) <==> Covers(s, x) || Covers(t, x)
  {
    if Covers(s, x) {
      var iv :| iv in s && Contains(iv, x);
      assert iv in s + t;
    }
    if Covers(t, x) {
      var iv :| iv in t && Contains(iv, x);
      assert iv in s + t;
    }
  }

  // ---------------------------------------------------------------------
  // sorted(xs, key=lambda x: x[0])
  // ---------------------------------------------------------------------

  /** Insert `x` after every element whose start is at most `x.start`:
      one step of a stable insertion sort. */
  function Insert(x: Interval, s: seq<Interval>): (r: seq<Interval>)
    ensures |r| == |s| + 1
    ensures multiset(r) == multiset(s) + multiset{x}
  {
    if s == [] || s[|s| - 1].start <= x.start then s + [x]
    else
      assert s == s[..|s| - 1] + [s[|s| - 1]];
      Insert(x, s[..|s| - 1]) + [s[|s| - 1]]
  }

  /** Inserting keeps every start at or below a common bound. */
  lemma {:induction false} InsertBounded(x: Interval, s: seq<Interval>, b: real)
    requires forall k :: 0 <= k < |s| ==> s[k].start <= b
    requires x.start <= b
    ensures forall k :: 0 <= k < |Insert(x, s)| ==> Insert(x, s)[k].start <= b
  {
    if !(s == [] || s[|s| - 1].start <= x.start) {
      var p := s[..|s| - 1];
      InsertBounded(x, p, b);
    }
  }

  lemma {:induction false} InsertSorted(x: Interval, s: seq<Interval>)
    requires SortedByStart(s)
    ensures SortedByStart(Insert(x, s))
  {
    if !(s == [] || s[|s| - 1].start <= x.start) {
      var p, l := s[..|s| - 1], s[|s| - 1];
      assert SortedByStart(p);
      InsertSorted(x, p);
      InsertBounded(x, p, l.start);
    }
  }

  /** Python's stable `sorted` by start time: each element is inserted after
      the equal-start elements that preceded it. */
  function SortByStart(s: seq<Interval>): (r: seq<Interval>)
    ensures |r| == |s|
    ensures multiset(r) == multiset(s)
    ensures SortedByStart(r)
  {
    if s == [] then []
    else
      assert s == s[..|s| - 1] + [s[|s| - 1]];
      InsertSorted(s[|s| - 1], SortByStart(s[..|s| - 1]));
      Insert(s[|s| - 1], SortByStart(s[..|s| - 1]))
  }

  /** Sorting a list that is already sorted by start leaves it unchanged. */
  lemma {:induction false} SortSortedIsIdentity(s: seq<Interval>)
    requires SortedByStart(s)
    ensures SortByStart(s) == s
  {
    if s != [] {
      var p, l := s[..|s| - 1], s[|s| - 1];
      assert SortByStart(p) == p by {
        assert SortedByStart(p);
        SortSortedIsIdentity(p);
      }
      assert Insert(l, p) == p + [l] by {
        assert p == [] || p[|p| - 1].start <= l.start;
      }
      assert p + [l] == s;
    }
  }

  lemma SortKeepsMembers(s: seq<Interval>, iv: Interval)
    ensures iv in SortByStart(s) <==> iv in s
  {
    assert iv in SortByStart(s) <==> iv in multiset(SortByStart(s));
    assert iv in s <==> iv in multiset(s);
  }

  lemma SortKeepsCover(s: seq<Interval>, x: real)
    ensures Covers(SortByStart(s), x) <==> Covers(s, x)
  {
    if Covers(s, x) {
      var iv :| iv in s && Contains(iv, x);
      SortKeepsMembers(s, iv);
    }
    if Covers(SortByStart(s), x) {
      var iv :| iv in SortByStart(s) && Contains(iv, x);
      SortKeepsMembers(s, iv);
    }
  }

  // ---------------------------------------------------------------------
  // Merge with gap tolerance (_merge_intervals / _merge_adjacent)
  // ---------------------------------------------------------------------

  /** The fold of the merge loop over a start-sorted list: `cur` is the range
      being grown; the next range joins it when it starts no later than
      `cur.end + gap`, otherwise `cur` is closed and the next range opens. */
  function MergeFrom(cur: Interval, rest: seq<Interval>, gap: real): (r: seq<Interval>)
    ensures r != [] && r[0].start == cur.start && r[0].end >= cur.end
    decreases |rest|
  {
    if rest == [] then [cur]
    else if rest[0].start <= cur.end + gap then
      MergeFrom(Interval(cur.start, Max(cur.end, rest[0].end)), rest[1..], gap)
    else [cur] + MergeFrom(rest[0], rest[1..], gap)
  }

  /** The value `_merge_intervals(xs, gap)` returns. */
  function Merged(xs: seq<Interval>, gap: real): seq<Interval>
  {
    var s := SortByStart(xs);
    if s == [] then [] else MergeFrom(s[0], s[1..], gap)
  }

  /** Growing the open range keeps its start, so the list stays sorted. */
  lemma SortedTail(cur: Interval, cur': Interval, rest: seq<Interval>)
    requires SortedByStart([cur] + rest) && rest != [] && cur'.start == cur.start
    ensures SortedByStart([cur'] + rest[1..])
  {
    forall i, j | 0 <= i < j < |[cur'] + rest[1..]|
      ensures ([cur'] + rest[1..])[i].start <= ([cur'] + rest[1..])[j].start
    {
      assert ([cur'] + rest[1..])[j] == ([cur] + rest)[j + 1];
      if i > 0 {
        assert ([cur'] + rest[1..])[i] == ([cur] + rest)[i + 1];
      } else {
        assert ([cur] + rest)[0] == cur;
      }
    }
  }

  /** The merge of a start-sorted list is sorted by start and its ranges are
      separated by more than `gap`. */
  lemma {:induction false} MergeFromShape(cur: Interval, rest: seq<Interval>, gap: real)
    requires SortedByStart([cur] + rest)
    ensures SortedByStart(MergeFrom(cur, rest, gap))
    ensures Separated(MergeFrom(cur, rest, gap), gap)
    decreases |rest|
  {
    if rest == [] {
    } else if rest[0].start <= cur.end + gap {
      var cur' := Interval(cur.start, Max(cur.end, rest[0].end));
      SortedTail(cur, cur', rest);
      MergeFromShape(cur', rest[1..], gap);
    } else {
      assert SortedByStart([rest[0]] + rest[1..]) by {
        assert [rest[0]] + rest[1..] == ([cur] + rest)[1..];
      }
      MergeFromShape(rest[0], rest[1..], gap);
      var t := MergeFrom(rest[0], rest[1..], gap);
      assert cur.start <= t[0].start by {
        assert ([cur] + rest)[0] == cur && ([cur] + rest)[1] == rest[0];
        assert t[0].start == rest[0].start;
      }
      forall i, j | 0 <= i < j < |[cur] + t| ensures ([cur] + t)[i].start <= ([cur] + t)[j].start {
        assert ([cur] + t)[j] == t[j - 1];
        if i == 0 {
          assert ([cur] + t)[0] == cur;
          if j > 1 {
            assert t[0].start <= t[j - 1].start;
          }
        } else {
          assert ([cur] + t)[i] == t[i - 1];
        }
      }
    }
  }

  /** Every range that goes into the merge is contained in a range that
      comes out. */
  lemma {:induction false} MergeFromCovers(cur: Interval, rest: seq<Interval>, gap: real)
    requires SortedByStart([cur] + rest)
    ensures Within(cur, MergeFrom(cur, rest, gap)[0])
    ensures forall y :: y in rest ==> InsideSome(y, MergeFrom(cur, rest, gap))
    decreases |rest|
  {
    var r := MergeFrom(cur, rest, gap);
    if rest == [] {
    } else if rest[0].start <= cur.end + gap {
      var cur' := Interval(cur.start, Max(cur.end, rest[0].end));
      SortedTail(cur, cur', rest);
      MergeFromCovers(cur', rest[1..], gap);
      assert ([cur] + rest)[0] == cur && ([cur] + rest)[1] == rest[0];
      assert r == MergeFrom(cur', rest[1..], gap);
      assert Within(rest[0], cur');
      assert Within(rest[0], r[0]);
      forall y | y in rest ensures InsideSome(y, r) {
        if y == rest[0] {
          assert r[0] in r;
        } else {
          assert y in rest[1..];
        }
      }
    } else {
      assert [rest[0]] + rest[1..] == ([cur] + rest)[1..];
      MergeFromCovers(rest[0], rest[1..], gap);
      var t := MergeFrom(rest[0], rest[1..], gap);
      assert r == [cur] + t;
      forall y | y in rest ensures InsideSome(y, r) {
        if y == rest[0] {
          assert t[0] in r;
        } else {
          assert y in rest[1..];
          var q :| q in t && Within(y, q);
          assert q in r;
        }
      }
    }
  }

  /** Every merged range starts where some input range starts and ends where
      some input range ends: the merge never widens a range beyond its inputs. */
  lemma {:induction false} MergeFromTight(cur: Interval, rest: seq<Interval>, gap: real, all: seq<Interval>)
    requires exists a :: a in all && a.start == cur.start
    requires exists a :: a in all && a.end == cur.end
    requires forall y :: y in rest ==> y in all
    ensures forall q :: q in MergeFrom(cur, rest, gap) ==>
              (exists a :: a in all && a.start == q.start) && (exists a :: a in all && a.end == q.end)
    decreases |rest|
  {
    if rest == [] {
    } else if rest[0].start <= cur.end + gap {
      var cur' := Interval(cur.start, Max(cur.end, rest[0].end));
      assert rest[0] in all;
      assert forall y :: y in rest[1..] ==> y in rest;
      MergeFromTight(cur', rest[1..], gap, all);
    } else {
      assert rest[0] in all;
      assert forall y :: y in rest[1..] ==> y in rest;
      MergeFromTight(rest[0], rest[1..], gap, all);
    }
  }

  /** Merging positive-length ranges gives positive-length ranges. */
  lemma {:induction false} MergeFromProper(cur: Interval, rest: seq<Interval>, gap: real)
    requires cur.start < cur.end && AllProper(rest)
    ensures AllProper(MergeFrom(cur, rest, gap))
    decreases |rest|
  {
    if rest == [] {
    } else if rest[0].start <= cur.end + gap {
      MergeFromProper(Interval(cur.start, Max(cur.end, rest[0].end)), rest[1..], gap);
    } else {
      MergeFromProper(rest[0], rest[1..], gap);
    }
  }

  /** A list that is already sorted and separated by more than `gap` is a
      fixed point of the fold. */
  lemma {:induction false} MergeFromFixpoint(cur: Interval, rest: seq<Interval>, gap: real)
    requires Separated([cur] + rest, gap)
    ensures MergeFrom(cur, rest, gap) == [cur] + rest
    decreases |rest|
  {
    if rest != [] {
      assert ([cur] + rest)[0] == cur && ([cur] + rest)[1] == rest[0];
      assert [rest[0]] + rest[1..] == ([cur] + rest)[1..];
      MergeFromFixpoint(rest[0], rest[1..], gap);
      assert rest == [rest[0]] + rest[1..];
    }
  }

  /** `_merge_intervals` returns the empty list exactly for the empty input;
      otherwise a list sorted by start whose consecutive ranges are more than
      `gap` apart. */
  lemma MergedShape(xs: seq<Interval>, gap: real)
    ensures Merged(xs, gap) == [] <==> xs == []
    ensures SortedByStart(Merged(xs, gap))
    ensures Separated(Merged(xs, gap), gap)
  {
    var s := SortByStart(xs);
    if s != [] {
      assert [s[0]] + s[1..] == s;
      MergeFromShape(s[0], s[1..], gap);
    }
  }

  /** Every input range lies inside some merged range. */
  lemma MergedCovers(xs: seq<Interval>, gap: real)
    ensures forall y :: y in xs ==> InsideSome(y, Merged(xs, gap))
  {
    var s := SortByStart(xs);
    var r := Merged(xs, gap);
    if s != [] {
      assert [s[0]] + s[1..] == s;
      MergeFromCovers(s[0], s[1..], gap);
      forall y | y in xs ensures InsideSome(y, r) {
        SortKeepsMembers(xs, y);
        if y == s[0] {
          assert r[0] in r;
        } else {
          var k :| 0 <= k < |s| && s[k] == y;
          assert y in s[1..];
        }
      }
    }
  }

  /** Every merged range starts where some input starts and ends where some
      input ends: the merge never widens a range beyond its inputs. */
  lemma MergedTight(xs: seq<Interval>, gap: real)
    ensures forall q :: q in Merged(xs, gap) ==>
              (exists a :: a in xs && a.start == q.start) && (exists a :: a in xs && a.end == q.end)
  {
    var s := SortByStart(xs);
    if s != [] {
      SortKeepsMembers(xs, s[0]);
      forall y | y in s[1..] ensures y in xs {
        SortKeepsMembers(xs, y);
      }
      MergeFromTight(s[0], s[1..], gap, xs);
    }
  }

  /** Positive-length inputs merge into positive-length ranges. */
  lemma MergedProper(xs: seq<Interval>, gap: real)
    requires AllProper(xs)
    ensures AllProper(Merged(xs, gap))
  {
    var s := SortByStart(xs);
    if s != [] {
      forall k | 0 <= k < |s| ensures s[k].start < s[k].end {
        SortKeepsMembers(xs, s[k]);
      }
      MergeFromProper(s[0], s[1..], gap);
    }
  }

  /** Separation by a non-negative gap makes a start-sorted list ordered:
      no two merged ranges overlap. */
  lemma SeparatedIsOrdered(s: seq<Interval>, gap: real)
    requires SortedByStart(s) && Separated(s, gap) && gap >= 0.0
    ensures Ordered(s)
  {
    forall i, j | 0 <= i < j < |s| ensures s[i].end <= s[j].start {
      assert s[i].end + gap < s[i + 1].start;
    }
  }

  /** Merging is idempotent: the merge of a merge is itself. */
  lemma MergedIdempotent(xs: seq<Interval>, gap: real)
    ensures Merged(Merged(xs, gap), gap) == Merged(xs, gap)
  {
    var r := Merged(xs, gap);
    MergedShape(xs, gap);
    SortSortedIsIdentity(r);
    if r != [] {
      assert [r[0]] + r[1..] == r;
      MergeFromFixpoint(r[0], r[1..], gap);
    }
  }

  // ---------------------------------------------------------------------
  // The merge does not depend on the order of its input
  // ---------------------------------------------------------------------

  /** Every range of `s` has `start <= end`, stated by membership so that it
      survives reordering. */
  predicate MembersWellFormed(s: seq<Interval>)
  {
    forall iv :: iv in s ==> iv.start <= iv.end
  }

  /** The fold over a whole start-sorted list. */
  function MergeList(s: seq<Interval>, gap: real): seq<Interval>
  {
    if s == [] then [] else MergeFrom(s[0], s[1..], gap)
  }

  /** Two well-formed ranges with the same start, met right after the open
      range, give the same result in either order. */
  lemma MergeFromSwapHead(cur: Interval, a: Interval, b: Interval, q: seq<Interval>, gap: real)
    requires a.start == b.start && a.start <= a.end && b.start <= b.end && gap >= 0.0
    ensures MergeFrom(cur, [a, b] + q, gap) == MergeFrom(cur, [b, a] + q, gap)
    ensures MergeFrom(a, [b] + q, gap) == MergeFrom(b, [a] + q, gap)
  {
    assert ([a, b] + q)[1..] == [b] + q && ([b] + q)[1..] == q;
    assert ([b, a] + q)[1..] == [a] + q && ([a] + q)[1..] == q;
    assert MergeFrom(a, [b] + q, gap) == MergeFrom(Interval(a.start, Max(a.end, b.end)), q, gap);
    assert MergeFrom(b, [a] + q, gap) == MergeFrom(Interval(b.start, Max(b.end, a.end)), q, gap);
    if a.start <= cur.end + gap {
      var c1 := Interval(cur.start, Max(cur.end, a.end));
      var c2 := Interval(cur.start, Max(cur.end, b.end));
      assert MergeFrom(cur, [a, b] + q, gap) == MergeFrom(Interval(cur.start, Max(c1.end, b.end)), q, gap);
      assert MergeFrom(cur, [b, a] + q, gap) == MergeFrom(Interval(cur.start, Max(c2.end, a.end)), q, gap);
      assert Max(c1.end, b.end) == Max(c2.end, a.end);
    }
  }

  /** The same exchange anywhere after the open range. */
  lemma {:induction false} MergeFromSwap(cur: Interval, p: seq<Interval>, a: Interval, b: Interval,
                                         q: seq<Interval>, gap: real)
    requires a.start == b.start && a.start <= a.end && b.start <= b.end && gap >= 0.0
    ensures MergeFrom(cur, p + [a, b] + q, gap) == MergeFrom(cur, p + [b, a] + q, gap)
    decreases |p|
  {
    if p == [] {
      assert p + [a, b] + q == [a, b] + q && p + [b, a] + q == [b, a] + q;
      MergeFromSwapHead(cur, a, b, q, gap);
    } else {
      var rest, rest' := p + [a, b] + q, p + [b, a] + q;
      assert rest[0] == p[0] && rest'[0] == p[0];
      assert rest[1..] == p[1..] + [a, b] + q;
      assert rest'[1..] == p[1..] + [b, a] + q;
      if p[0].start <= cur.end + gap {
        MergeFromSwap(Interval(cur.start, Max(cur.end, p[0].end)), p[1..], a, b, q, gap);
      } else {
        MergeFromSwap(p[0], p[1..], a, b, q, gap);
      }
    }
  }

  /** The exchange on a whole list, the first range included. */
  lemma MergeListSwap(p: seq<Interval>, a: Interval, b: Interval, q: seq<Interval>, gap: real)
    requires a.start == b.start && a.start <= a.end && b.start <= b.end && gap >= 0.0
    ensures MergeList(p + [a, b] + q, gap) == MergeList(p + [b, a] + q, gap)
  {
    var s, s' := p + [a, b] + q, p + [b, a] + q;
    if p == [] {
      assert s == [a] + ([b] + q) && s' == [b] + ([a] + q);
      assert s[1..] == [b] + q && s'[1..] == [a] + q;
      MergeFromSwapHead(a, a, b, q, gap);
    } else {
      assert s[0] == p[0] && s'[0] == p[0];
      assert s[1..] == p[1..] + [a, b] + q && s'[1..] == p[1..] + [b, a] + q;
      MergeFromSwap(p[0], p[1..], a, b, q, gap);
    }
  }

  /** `s` with the ranges at `k - 1` and `k` exchanged. */
  function SwapBack(s: seq<Interval>, k: nat): seq<Interval>
    requires 0 < k < |s|
  {
    s[..k - 1] + [s[k], s[k - 1]] + s[k + 1..]
  }

  /** Exchanging two neighbouring equal-start ranges does not change the
      merge. */
  lemma MergeListSwapBack(p: seq<Interval>, s: seq<Interval>, k: nat, gap: real)
    requires 0 < k < |s| && MembersWellFormed(s) && gap >= 0.0
    requires s[k - 1].start == s[k].start
    ensures MergeList(p + s, gap) == MergeList(p + SwapBack(s, k), gap)
  {
    assert s == s[..k - 1] + [s[k - 1], s[k]] + s[k + 1..];
    assert p + s == (p + s[..k - 1]) + [s[k - 1], s[k]] + s[k + 1..];
    assert p + SwapBack(s, k) == (p + s[..k - 1]) + [s[k], s[k - 1]] + s[k + 1..];
    assert s[k - 1] in s && s[k] in s;
    MergeListSwap(p + s[..k - 1], s[k - 1], s[k], s[k + 1..], gap);
  }

  /** What the exchange keeps: the ranges, and the rotation still to do. */
  lemma SwapBackFacts(s: seq<Interval>, k: nat)
    requires 0 < k < |s| && MembersWellFormed(s)
    requires forall t :: 0 <= t <= k ==> s[t].start == s[k].start
    ensures MembersWellFormed(SwapBack(s, k))
    ensures forall t :: 0 <= t <= k - 1 ==> SwapBack(s, k)[t].start == SwapBack(s, k)[k - 1].start
    ensures var s1 := SwapBack(s, k);
      [s1[k - 1]] + s1[..k - 1] + s1[k..] == [s[k]] + s[..k] + s[k + 1..]
  {
    SwapBackMembers(s, k);
    SwapBackRotation(s, k);
  }

  lemma SwapBackMembers(s: seq<Interval>, k: nat)
    requires 0 < k < |s| && MembersWellFormed(s)
    ensures MembersWellFormed(SwapBack(s, k))
  {
    var s1 := SwapBack(s, k);
    forall iv | iv in s1 ensures iv.start <= iv.end {
      var t :| 0 <= t < |s1| && s1[t] == iv;
      if t < k - 1 {
        assert iv == s[t];
      } else if t == k - 1 {
        assert iv == s[k];
      } else if t == k {
        assert iv == s[k - 1];
      } else {
        assert iv == s[t];
      }
      assert iv in s;
    }
  }

  lemma SwapBackRotation(s: seq<Interval>, k: nat)
    requires 0 < k < |s|
    ensures var s1 := SwapBack(s, k);
      [s1[k - 1]] + s1[..k - 1] + s1[k..] == [s[k]] + s[..k] + s[k + 1..]
  {
    var s1 := SwapBack(s, k);
    assert s1[k - 1] == s[k];
    assert s1[..k - 1] == s[..k - 1];
    assert s1[k..] == [s[k - 1]] + s[k + 1..];
    assert s[..k] == s[..k - 1] + [s[k - 1]];
  }

  /** A range can be moved in front of the equal-start ranges before it. */
  lemma {:induction false} MergeListMoveToFront(p: seq<Interval>, s: seq<Interval>, k: nat, gap: real)
    requires k < |s| && MembersWellFormed(s) && gap >= 0.0
    requires forall t :: 0 <= t <= k ==> s[t].start == s[k].start
    ensures MergeList(p + s, gap) == MergeList(p + ([s[k]] + s[..k] + s[k + 1..]), gap)
    decreases k
  {
    if k == 0 {
      assert [s[0]] + s[..0] + s[1..] == s;
    } else {
      MergeListSwapBack(p, s, k, gap);
      SwapBackFacts(s, k);
      MergeListMoveToFront(p, SwapBack(s, k), k - 1, gap);
    }
  }

  /** Removing one range keeps a start-sorted list sorted. */
  lemma SortedWithout(s: seq<Interval>, k: nat)
    requires k < |s| && SortedByStart(s)
    ensures SortedByStart(s[..k] + s[k + 1..])
  {
    var r := s[..k] + s[k + 1..];
    forall i, j | 0 <= i < j < |r| ensures r[i].start <= r[j].start {
      var i' := if i < k then i else i + 1;
      var j' := if j < k then j else j + 1;
      assert r[i] == s[i'] && r[j] == s[j'];
    }
  }

  /** In a start-sorted list, the ranges up to one whose start is the
      least all share that start. */
  lemma SortedPrefixSameStart(a: seq<Interval>, k: nat, lo: real)
    requires SortedByStart(a) && k < |a| && a[k].start == lo
    requires forall iv :: iv in a ==> lo <= iv.start
    ensures forall t :: 0 <= t <= k ==> a[t].start == a[k].start
  {
    forall t | 0 <= t <= k ensures a[t].start == a[k].start {
      assert a[t] in a;
    }
  }

  /** Taking the same range out of two lists with the same ranges leaves
      two lists with the same ranges. */
  lemma RemoveSame(a: seq<Interval>, b: seq<Interval>, k: nat)
    requires multiset(a) == multiset(b) && k < |a| && |b| > 0 && a[k] == b[0]
    ensures multiset(a[..k] + a[k + 1..]) == multiset(b[1..])
  {
    var rest := a[..k] + a[k + 1..];
    assert a == a[..k] + [a[k]] + a[k + 1..];
    assert multiset(a) == multiset(rest) + multiset{a[k]};
    assert b == [b[0]] + b[1..];
    assert multiset(b) == multiset(b[1..]) + multiset{b[0]};
    assert multiset(rest) == multiset(a) - multiset{a[k]};
    assert multiset(b[1..]) == multiset(b) - multiset{b[0]};
  }

  /** One step of the permutation argument: the first range of `b`, found
      at `k` in `a`, leaves the rest of both lists sorted, well-formed and
      with the same ranges. */
  lemma PermutationStep(a: seq<Interval>, b: seq<Interval>) returns (k: nat)
    requires SortedByStart(a) && SortedByStart(b) && multiset(a) == multiset(b)
    requires MembersWellFormed(a) && a != []
    ensures k < |a| && |b| > 0 && a[k] == b[0]
    ensures forall t :: 0 <= t <= k ==> a[t].start == a[k].start
    ensures SortedByStart(a[..k] + a[k + 1..]) && SortedByStart(b[1..])
    ensures multiset(a[..k] + a[k + 1..]) == multiset(b[1..])
    ensures MembersWellFormed(a[..k] + a[k + 1..])
  {
    assert |b| == |multiset(b)| == |a|;
    assert b[0] in multiset(a);
    k :| 0 <= k < |a| && a[k] == b[0];
    forall iv | iv in a ensures b[0].start <= iv.start {
      assert iv in multiset(b);
      var m :| 0 <= m < |b| && b[m] == iv;
    }
    SortedPrefixSameStart(a, k, b[0].start);
    SortedWithout(a, k);
    RemoveSame(a, b, k);
    var rest := a[..k] + a[k + 1..];
    forall iv | iv in rest ensures iv.start <= iv.end {
      assert iv in multiset(rest);
      assert iv in multiset(b);
      assert iv in multiset(a);
    }
  }

  lemma PrefixRegroup<T>(p: seq<T>, x: T, u: seq<T>, v: seq<T>)
    ensures p + ([x] + u + v) == (p + [x]) + (u + v)
  {
  }

  /** Start-sorted lists with the same ranges merge alike, after any common
      prefix: they differ only in the order of equal-start ranges. */
  lemma {:induction false} MergeListPermutation(p: seq<Interval>, a: seq<Interval>, b: seq<Interval>, gap: real)
    requires SortedByStart(a) && SortedByStart(b) && multiset(a) == multiset(b)
    requires MembersWellFormed(a) && gap >= 0.0
    ensures MergeList(p + a, gap) == MergeList(p + b, gap)
    decreases |a|
  {
    if a == [] {
      assert |b| == |multiset(b)| == 0;
    } else {
      var k := PermutationStep(a, b);
      var x := b[0];
      var rest := a[..k] + a[k + 1..];
      var front := [x] + a[..k] + a[k + 1..];
      MergeListMoveToFront(p, a, k, gap);
      assert MergeList(p + a, gap) == MergeList(p + front, gap);
      MergeListPermutation(p + [x], rest, b[1..], gap);
      assert p + front == (p + [x]) + rest by {
        PrefixRegroup(p, x, a[..k], a[k + 1..]);
      }
      assert p + b == (p + [x]) + b[1..] by {
        assert b == [x] + b[1..];
      }
    }
  }

  /** For well-formed ranges and a non-negative gap, the merge depends only
      on which ranges are given, not on their order. */
  lemma MergedOrderIndependent(xs: seq<Interval>, ys: seq<Interval>, gap: real)
    requires multiset(xs) == multiset(ys) && AllWellFormed(xs) && gap >= 0.0
    ensures Merged(xs, gap) == Merged(ys, gap)
  {
    var a, b := SortByStart(xs), SortByStart(ys);
    assert MembersWellFormed(a) by {
      forall iv | iv in a ensures iv.start <= iv.end {
        assert iv in multiset(a);
        assert iv in multiset(xs);
        var k :| 0 <= k < |xs| && xs[k] == iv;
      }
    }
    MergeListPermutation([], a, b, gap);
    assert [] + a == a && [] + b == b;
  }

  /** The merge loop of `_merge_intervals` (and of the identical
      `_merge_adjacent`): sort by start, then fold with `cs`/`ce`. */
  method MergeIntervals(intervals: seq<Interval>, minGap: real) returns (merged: seq<Interval>)
    ensures merged == Merged(intervals, minGap)
    ensures merged == [] <==> intervals == []
    ensures SortedByStart(merged) && Separated(merged, minGap)
    ensures forall y :: y in intervals ==> InsideSome(y, merged)
  {
    if |intervals| == 0 {
      MergedShape(intervals, minGap);
      return [];
    }
    var sorted := SortByStart(intervals);
    merged := [];
    var cs, ce := sorted[0].start, sorted[0].end;
    for k := 1 to |sorted|
      invariant Merged(intervals, minGap) == merged + MergeFrom(Interval(cs, ce), sorted[k..], minGap)
    {
      ghost var open := Interval(cs, ce);
      assert sorted[k..][0] == sorted[k] && sorted[k..][1..] == sorted[k + 1..];
      var s, e := sorted[k].start, sorted[k].end;
      if s <= ce + minGap {
        ce := Max(ce, e);
        assert MergeFrom(open, sorted[k..], minGap) == MergeFrom(Interval(cs, ce), sorted[k + 1..], minGap);
      } else {
        ghost var tail := MergeFrom(sorted[k], sorted[k + 1..], minGap);
        assert MergeFrom(open, sorted[k..], minGap) == [open] + tail;
        assert merged + ([open] + tail) == merged + [open] + tail;
        merged := merged + [Interval(cs, ce)];
        cs, ce := s, e;
      }
    }
    assert sorted[|sorted|..] == [];
    merged := merged + [Interval(cs, ce)];
    MergedShape(intervals, minGap);
    MergedCovers(intervals, minGap);
  }
}
