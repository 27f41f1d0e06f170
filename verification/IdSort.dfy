/**
  mdb_midl_sort: quicksort without recursion, with a fixed stack of segments and an
  insertion sort for short ones, on the list in `ids[1..ids[0]]`.
 */
module IdSort {
  import opened IdLists

  const SMALL := 8
  const ISTACK := 64  // sizeof(int) * CHAR_BIT * 2

  // ---------------------------------------------------------------- permutations

  /** `t` is `s` with only positions lo .. hi rearranged. */
  ghost predicate Rearranged(s: seq<nat>, t: seq<nat>, lo: int, hi: int) {
    && |t| == |s|
    && multiset(t) == multiset(s)
    && forall q :: 0 <= q < |s| && !(lo <= q <= hi) ==> t[q] == s[q]
  }

  lemma SwapRearranges(s: seq<nat>, i: nat, j: nat)
    requires i < |s| && j < |s|
    ensures multiset(s[i := s[j]][j := s[i]]) == multiset(s)
  {}

  lemma Split3(s: seq<nat>, lo: nat, hi: nat)
    requires lo <= hi <= |s|
    ensures multiset(s) == multiset(s[..lo]) + multiset(s[lo..hi]) + multiset(s[hi..])
  {
    assert s == s[..lo] + s[lo..hi] + s[hi..];
  }

  lemma SameInside(s: seq<nat>, t: seq<nat>, lo: nat, hi: nat)
    requires |t| == |s| && lo <= hi <= |s| && multiset(t) == multiset(s)
    requires t[..lo] == s[..lo] && t[hi..] == s[hi..]
    ensures multiset(t[lo..hi]) == multiset(s[lo..hi])
  {
    Split3(s, lo, hi);
    Split3(t, lo, hi);
    var rest := multiset(s[..lo]) + multiset(s[hi..]);
    calc {
      multiset(t[lo..hi]);
      multiset(t) - rest;
      multiset(s) - rest;
      multiset(s[lo..hi]);
    }
  }

  /** Values inside the rearranged part come from inside it. */
  lemma SameValues(s: seq<nat>, t: seq<nat>, lo: nat, hi: int, q: nat)
    requires Rearranged(s, t, lo, hi) && lo <= q <= hi < |s|
    ensures exists r :: lo <= r <= hi && s[r] == t[q]
  {
    assert t[..lo] == s[..lo] && t[hi + 1..] == s[hi + 1..];
    SameInside(s, t, lo, hi + 1);
    var b := s[lo..hi + 1];
    assert t[q] == t[lo..hi + 1][q - lo];
    assert t[q] in multiset(b);
    var k :| 0 <= k < |b| && b[k] == t[q];
    assert s[lo + k] == t[q];
  }

  /** Moving the entry at `j` down to `k` and the ones between up is a rearrangement. */
  lemma RotationRearranges(s: seq<nat>, t: seq<nat>, k: nat, j: nat)
    requires Rotated(s, t, k, j)
    ensures multiset(t) == multiset(s)
  {
    assert s == s[..k] + s[k..j] + [s[j]] + s[j + 1..];
    assert t == s[..k] + [s[j]] + s[k..j] + s[j + 1..];
  }

  lemma RearrangedTwice(s: seq<nat>, t: seq<nat>, u: seq<nat>, lo: int, hi: int)
    requires Rearranged(s, t, lo, hi) && Rearranged(t, u, lo, hi)
    ensures Rearranged(s, u, lo, hi)
  {}

  /** MIDL_SWAP; `s` is an earlier content of lo .. hi. */
  method Swap(a: array<nat>, i: nat, j: nat, ghost s: seq<nat>, ghost lo: nat, ghost hi: nat)
    requires lo <= i <= hi && lo <= j <= hi < a.Length && Rearranged(s, a[..], lo, hi)
    modifies a
    ensures a[i] == old(a[j]) && a[j] == old(a[i])
    ensures forall q :: 0 <= q < a.Length && q != i && q != j ==> a[q] == old(a[q])
    ensures Rearranged(s, a[..], lo, hi)
  {
    ghost var t := a[..];
    SwapRearranges(t, i, j);
    var tmp := a[i];
    a[i] := a[j];
    a[j] := tmp;
    assert a[..] == t[i := t[j]][j := t[i]];
    assert Rearranged(t, a[..], lo, hi);
    RearrangedTwice(s, t, a[..], lo, hi);
  }

  // ---------------------------------------------------------------- insertion sort

  ghost predicate SortedRange(s: seq<nat>, lo: int, hi: int)
    requires 0 <= lo && hi < |s|
  {
    forall p, q :: lo <= p < q <= hi ==> s[p] >= s[q]
  }

  /** The entry at `j` has moved down to `k`. */
  ghost predicate Rotated(s: seq<nat>, t: seq<nat>, k: nat, j: nat) {
    && |t| == |s| && k <= j < |s| && t[k] == s[j]
    && (forall q {:trigger t[q]} :: k < q <= j ==> t[q] == s[q - 1])
    && (forall q {:trigger t[q]} :: 0 <= q < k || j < q < |s| ==> t[q] == s[q])
  }

  lemma RotationSorts(s: seq<nat>, t: seq<nat>, l: nat, k: nat, j: nat)
    requires Rotated(s, t, k, j) && l <= k && SortedRange(s, l, j - 1)
    requires k == l || s[k - 1] >= s[j]
    requires forall q :: k <= q < j ==> s[q] < s[j]
    ensures SortedRange(t, l, j)
  {}

  /** One insertion: `ids[j]` goes to its place among the sorted entries below it. */
  method Insert(ids: array<nat>, l: nat, j: nat)
    requires 1 <= l < j < ids.Length
    requires SortedRange(ids[..], l, j - 1)
    requires forall p :: 1 <= p < l ==> ids[p] >= ids[j]
    modifies ids
    ensures SortedRange(ids[..], l, j)
    ensures Rearranged(old(ids[..]), ids[..], l, j)
  {
    ghost var s := ids[..];
    var a, i := ids[j], j - 1;
    while i >= 1 && ids[i] < a
      invariant l - 1 <= i <= j - 1
      invariant forall q {:trigger ids[q]} :: 0 <= q <= i || j < q < ids.Length ==> ids[q] == s[q]
      invariant forall q {:trigger ids[q]} :: i + 1 < q <= j ==> ids[q] == s[q - 1]
      invariant forall q :: i < q < j ==> s[q] < a
    {
      ids[i + 1] := ids[i];
      i := i - 1;
    }
    ids[i + 1] := a;
    hide SortedRange;
    RotationRearranges(s, ids[..], i + 1, j);
    RotationSorts(s, ids[..], l, i + 1, j);
  }

  /** The insertion pass over l .. ir; nothing left of `l` moves, since all of it is at least as large. */
  method InsertionPass(ids: array<nat>, l: nat, ir: int)
    requires 1 <= l && l - 1 <= ir < ids.Length
    requires forall p, q :: 1 <= p < l <= q <= ir ==> ids[p] >= ids[q]
    modifies ids
    ensures SortedRange(ids[..], l, ir)
    ensures Rearranged(old(ids[..]), ids[..], l, ir)
  {
    var j := l + 1;
    while j <= ir
      invariant l + 1 <= j && (j <= ir + 1 || ir <= l)
      invariant j <= ir + 1 ==> SortedRange(ids[..], l, j - 1)
      invariant Rearranged(old(ids[..]), ids[..], l, ir)
      invariant forall q :: j <= q <= ir ==> ids[q] == old(ids[q])
    {
      Insert(ids, l, j);
      j := j + 1;
    }
  }

  // ---------------------------------------------------------------- partition

  /** Median of left, centre and right goes to l + 1. */
  method MedianOfThree(ids: array<nat>, l: nat, ir: nat)
    requires 1 <= l && l + 2 <= ir < ids.Length
    modifies ids
    ensures ids[l] >= ids[l + 1] >= ids[ir]
    ensures Rearranged(old(ids[..]), ids[..], l, ir)
  {
    ghost var s := ids[..];
    assert Rearranged(s, ids[..], l, ir);
    hide Rearranged;
    Swap(ids, (l + ir) / 2, l + 1, s, l, ir);
    if ids[l] < ids[ir] {
      Swap(ids, l, ir, s, l, ir);
    }
    if ids[l + 1] < ids[ir] {
      Swap(ids, l + 1, ir, s, l, ir);
    }
    if ids[l] < ids[l + 1] {
      Swap(ids, l, l + 1, s, l, ir);
    }
  }

  /** do i++; while (ids[i] > a) -- it stops at `stop` at the latest. */
  method ScanUp(ids: array<nat>, i0: nat, a: nat, ghost stop: nat) returns (i: nat)
    requires i0 < stop < ids.Length && ids[stop] <= a
    ensures i0 < i <= stop && ids[i] <= a
    ensures forall q :: i0 < q < i ==> ids[q] > a
  {
    i := i0 + 1;
    while ids[i] > a
      invariant i0 < i <= stop
      decreases stop - i
      invariant forall q :: i0 < q < i ==> ids[q] > a
    {
      i := i + 1;
    }
  }

  /** do j--; while (ids[j] < a) */
  method ScanDown(ids: array<nat>, j0: nat, a: nat, ghost stop: nat) returns (j: nat)
    requires stop < j0 <= ids.Length && ids[stop] >= a
    ensures stop <= j < j0 && ids[j] >= a
    ensures forall q :: j < q < j0 ==> ids[q] < a
  {
    j := j0 - 1;
    while ids[j] < a
      invariant stop <= j < j0
      decreases j
      invariant forall q :: j < q < j0 ==> ids[q] < a
    {
      j := j - 1;
    }
  }

  /** Entries l .. i are at least `a`, entries j .. ir at most, and the scans have sentinels. */
  ghost predicate Partitioning(s: seq<nat>, l: nat, ir: nat, i: nat, j: nat, a: nat) {
    && l + 1 <= i <= j <= ir < |s| && s[l + 1] == a
    && (i == j ==> l + 2 <= i && j < ir)
    && (forall q :: l <= q <= i ==> s[q] >= a)
    && (forall q :: j <= q <= ir ==> s[q] <= a)
  }

  /** What the partition leaves: l .. j-1 at least `a`, j .. i-1 equal, i .. ir at most. */
  ghost predicate Partitioned(s: seq<nat>, l: nat, ir: nat, i: nat, j: nat, a: nat) {
    && l + 1 <= j < i <= ir < |s|
    && (forall q :: l <= q < j ==> s[q] >= a)
    && (forall q :: j <= q < i ==> s[q] == a)
    && (forall q :: i <= q <= ir ==> s[q] <= a)
  }

  method Partition(ids: array<nat>, l: nat, ir: nat) returns (i: nat, j: nat, ghost a: nat)
    requires 1 <= l && l + 2 <= ir < ids.Length
    modifies ids
    ensures Partitioned(ids[..], l, ir, i, j, a)
    ensures Rearranged(old(ids[..]), ids[..], l, ir)
  {
    hide Rearranged;
    ghost var s := ids[..];
    MedianOfThree(ids, l, ir);
    i, j := l + 1, ir;
    var pivot := ids[l + 1];
    while true
      invariant Partitioning(ids[..], l, ir, i, j, pivot)
      invariant Rearranged(s, ids[..], l, ir)
      decreases ir - i
    {
      ghost var i0, j0 := i, j;
      i := ScanUp(ids, i, pivot, if i < j then j else j + 1);
      j := ScanDown(ids, j, pivot, if i0 < j then i0 else i0 - 1);
      if j < i {
        break;
      }
      Swap(ids, i, j, s, l, ir);
    }
    Swap(ids, l + 1, j, s, l, ir);  // ids[l+1] = ids[j]; ids[j] = a
    a := pivot;
  }

  // ---------------------------------------------------------------- pending segments

  datatype Seg = Seg(lo: nat, hi: int)

  ghost predicate Within(g: Seg, p: int, q: int) {
    g.lo <= p && q <= g.hi
  }

  ghost predicate InSome(segs: seq<Seg>, p: int, q: int) {
    exists k :: 0 <= k < |segs| && Within(segs[k], p, q)
  }

  /** Entries 1 .. n are in order, except pairs inside one pending segment. */
  ghost predicate Ordered(s: seq<nat>, n: nat, segs: seq<Seg>)
    requires n < |s|
  {
    forall p, q :: 1 <= p < q <= n && !InSome(segs, p, q) ==> s[p] >= s[q]
  }

  ghost predicate Disjoint(segs: seq<Seg>) {
    forall a, b, p :: 0 <= a < b < |segs| && Within(segs[a], p, p) ==> !Within(segs[b], p, p)
  }

  ghost predicate InBounds(segs: seq<Seg>, n: nat) {
    forall k :: 0 <= k < |segs| ==> 1 <= segs[k].lo <= segs[k].hi + 1 && segs[k].hi <= n
  }

  lemma InSomeOf(a: seq<Seg>, b: seq<Seg>, p: int, q: int)
    ensures InSome(a + b, p, q) <==> InSome(a, p, q) || InSome(b, p, q)
  {
    var c := a + b;
    assert forall k :: 0 <= k < |a| ==> c[k] == a[k];
    assert forall k :: 0 <= k < |b| ==> c[|a| + k] == b[k];
    assert forall k :: |a| <= k < |c| ==> c[k] == b[k - |a|];
  }

  /** Working on the last segment only, until the pairs not inside a new segment are in order. */
  lemma ReplaceLast(s: seq<nat>, t: seq<nat>, n: nat, rest: seq<Seg>, cur: Seg, news: seq<Seg>)
    requires n < |s| && Ordered(s, n, rest + [cur]) && Disjoint(rest + [cur]) && 1 <= cur.lo && cur.hi <= n
    requires Rearranged(s, t, cur.lo, cur.hi)
    requires forall p, q :: cur.lo <= p < q <= cur.hi && !InSome(news, p, q) ==> t[p] >= t[q]
    ensures Ordered(t, n, rest + news)
  {
    forall p, q | 1 <= p < q <= n && !InSome(rest + news, p, q) ensures t[p] >= t[q] {
      InSomeOf(rest, news, p, q);
      if !Within(cur, p, q) {
        var p' := if cur.lo <= p <= cur.hi then Source(s, t, cur, p) else p;
        var q' := if cur.lo <= q <= cur.hi then Source(s, t, cur, q) else q;
        Together(rest, cur, p, q, p', q');
      }
    }
  }

  ghost function Source(s: seq<nat>, t: seq<nat>, cur: Seg, q: nat): (r: nat)
    requires Rearranged(s, t, cur.lo, cur.hi) && cur.lo <= q <= cur.hi < |s|
    ensures cur.lo <= r <= cur.hi && s[r] == t[q]
  {
    SameValues(s, t, cur.lo, cur.hi, q);
    var r :| cur.lo <= r <= cur.hi && s[r] == t[q];
    r
  }

  lemma DisjointAt(segs: seq<Seg>, a: nat, b: nat, p: int)
    requires Disjoint(segs) && a < b < |segs|
    ensures Within(segs[a], p, p) ==> !Within(segs[b], p, p)
  {}

  /** Positions of one segment stay together when others move inside the current one. */
  lemma Together(rest: seq<Seg>, cur: Seg, p: nat, q: nat, p': nat, q': nat)
    requires Disjoint(rest + [cur]) && p < q && p' < q'
    requires (p' == p && !Within(cur, p, p)) || (Within(cur, p, p) && Within(cur, p', p'))
    requires (q' == q && !Within(cur, q, q)) || (Within(cur, q, q) && Within(cur, q', q'))
    ensures InSome(rest + [cur], p', q') ==> InSome(rest, p, q) || Within(cur, p, q)
  {
    var segs := rest + [cur];
    assert segs[|rest|] == cur;
    if k :| 0 <= k < |rest| && Within(segs[k], p', q') {
      DisjointAt(segs, k, |rest|, p');
      DisjointAt(segs, k, |rest|, q');
      assert Within(rest[k], p, q);
    }
  }

  // ---------------------------------------------------------------- the fixed stack is deep enough

  function Pow2(k: nat): (r: nat)
    ensures r >= 1
  {
    if k == 0 then 1 else 2 * Pow2(k - 1)
  }

  lemma {:induction false} Pow2Grows(k: nat)
    requires k >= 28
    ensures Pow2(k) >= 0x1000_0000
  {
    if k > 28 {
      Pow2Grows(k - 1);
    } else {
      assert Pow2(4) == 16;
      assert Pow2(8) == 256;
      assert Pow2(12) == 0x1000;
      assert Pow2(16) == 0x1_0000;
      assert Pow2(20) == 0x10_0000;
      assert Pow2(24) == 0x100_0000;
    }
  }

  function Size(g: Seg): int {
    g.hi - g.lo + 1
  }

  /** A segment at depth k has at most n / 2^k entries. */
  ghost predicate Shallow(segs: seq<Seg>, n: nat) {
    forall k :: 0 <= k < |segs| ==> Pow2(k) * Size(segs[k]) <= n
  }

  lemma DepthBound(segs: seq<Seg>, n: nat)
    requires Shallow(segs, n) && n < 0x8000_0000 && segs != [] && Size(segs[|segs| - 1]) > SMALL
    ensures |segs| <= 28
  {
    var k := |segs| - 1;
    if k >= 28 {
      Pow2Grows(k);
      MulMono(0x1000_0000, Pow2(k), 9, Size(segs[k]));
      assert false;
    }
  }

  lemma MulMono(a: nat, b: nat, c: nat, d: nat)
    requires a <= b && c <= d
    ensures a * c <= b * d
  {
    assert a * c <= b * c <= b * d;
  }

  /** Continuing with the smaller part halves the bound. */
  lemma PushShallow(rest: seq<Seg>, cur: Seg, big: Seg, small: Seg, n: nat)
    requires Shallow(rest + [cur], n)
    requires 0 <= Size(big) <= Size(cur) && 0 <= 2 * Size(small) <= Size(cur)
    ensures Shallow(rest + [big, small], n)
  {
    var segs, segs' := rest + [cur], rest + [big, small];
    var d := |rest|;
    assert segs[d] == cur && segs'[d] == big && segs'[d + 1] == small;
    MulMono(Pow2(d), Pow2(d), Size(big), Size(cur));
    MulMono(Pow2(d), Pow2(d), 2 * Size(small), Size(cur));
    assert Pow2(d + 1) * Size(small) == Pow2(d) * (2 * Size(small));
    forall k | 0 <= k < |segs'| ensures Pow2(k) * Size(segs'[k]) <= n {
      if k < d { assert segs'[k] == segs[k]; }
    }
  }

  function Total(segs: seq<Seg>): int {
    if segs == [] then 0 else Total(segs[..|segs| - 1]) + Size(segs[|segs| - 1])
  }

  lemma {:induction false} TotalNat(segs: seq<Seg>, n: nat)
    requires InBounds(segs, n)
    ensures Total(segs) >= 0
  {
    if segs != [] { TotalNat(segs[..|segs| - 1], n); }
  }

  // ---------------------------------------------------------------- the sort

  ghost predicate Sorting(s: seq<nat>, n: nat, segs: seq<Seg>) {
    n < |s| && Ordered(s, n, segs) && Disjoint(segs) && InBounds(segs, n) && Shallow(segs, n)
  }

  /** istack holds the pending segments, two words each, from index 1. */
  ghost predicate StackHolds(istack: seq<int>, stack: seq<Seg>) {
    && 2 * |stack| < |istack|
    && forall k :: 0 <= k < |stack| ==> istack[2 * k + 1] == stack[k].lo && istack[2 * k + 2] == stack[k].hi
  }

  lemma LeftOfSegment(s: seq<nat>, n: nat, rest: seq<Seg>, cur: Seg)
    requires Sorting(s, n, rest + [cur]) && cur.hi < |s|
    ensures forall p, q :: 1 <= p < cur.lo <= q <= cur.hi ==> s[p] >= s[q]
  {
    var segs := rest + [cur];
    assert segs[|rest|] == cur;
    forall p, q | 1 <= p < cur.lo <= q <= cur.hi ensures s[p] >= s[q] {
      forall k | 0 <= k < |segs| ensures !Within(segs[k], p, q) {
        if k < |rest| { DisjointAt(segs, k, |rest|, q); }
      }
    }
  }

  /** The current segment has been sorted. */
  lemma PopStep(s: seq<nat>, t: seq<nat>, n: nat, rest: seq<Seg>, cur: Seg)
    requires Sorting(s, n, rest + [cur]) && cur.hi < |s|
    requires Rearranged(s, t, cur.lo, cur.hi) && SortedRange(t, cur.lo, cur.hi)
    ensures Sorting(t, n, rest)
  {
    var segs := rest + [cur];
    assert segs[|rest|] == cur && forall k :: 0 <= k < |rest| ==> rest[k] == segs[k];
    ReplaceLast(s, t, n, rest, cur, []);
    assert rest + [] == rest;
  }

  /** The current segment has been partitioned. */
  lemma PushStep(
      s: seq<nat>, t: seq<nat>, n: nat, rest: seq<Seg>, cur: Seg, big: Seg, small: Seg, i: nat, j: nat, a: nat)
    requires Sorting(s, n, rest + [cur]) && Rearranged(s, t, cur.lo, cur.hi)
    requires cur.hi >= 0 && Partitioned(t, cur.lo, cur.hi, i, j, a)
    requires (big == Seg(i, cur.hi) && small == Seg(cur.lo, j - 1)) ||
      (big == Seg(cur.lo, j - 1) && small == Seg(i, cur.hi))
    requires Size(small) <= Size(big)
    ensures Sorting(t, n, rest + [big, small])
  {
    var segs, segs' := rest + [cur], rest + [big, small];
    assert segs[|rest|] == cur && segs'[|rest|] == big && segs'[|rest| + 1] == small;
    assert forall k :: 0 <= k < |rest| ==> segs'[k] == segs[k] == rest[k];
    forall p, q | cur.lo <= p < q <= cur.hi && !InSome([big, small], p, q) ensures t[p] >= t[q] {
      assert !Within([big, small][0], p, q) && !Within([big, small][1], p, q);
    }
    ReplaceLast(s, t, n, rest, cur, [big, small]);
    PushShallow(rest, cur, big, small, n);
    SplitDisjoint(rest, cur, big, small);
  }

  lemma SplitDisjoint(rest: seq<Seg>, cur: Seg, big: Seg, small: Seg)
    requires Disjoint(rest + [cur])
    requires forall p :: Within(big, p, p) || Within(small, p, p) ==> Within(cur, p, p)
    requires forall p :: Within(big, p, p) ==> !Within(small, p, p)
    ensures Disjoint(rest + [big, small])
  {
    var segs, segs' := rest + [cur], rest + [big, small];
    assert segs[|rest|] == cur && segs'[|rest|] == big && segs'[|rest| + 1] == small;
    forall x, y, p | 0 <= x < y < |segs'| && Within(segs'[x], p, p) ensures !Within(segs'[y], p, p) {
      if x < |rest| {
        assert segs'[x] == segs[x];
        if y < |rest| { assert segs'[y] == segs[y]; }
        DisjointAt(segs, x, if y < |rest| then y else |rest|, p);
      }
    }
  }

  lemma LastSegment(s: seq<nat>, n: nat, rest: seq<Seg>, cur: Seg)
    requires Sorting(s, n, rest + [cur])
    ensures 1 <= cur.lo <= cur.hi + 1 && cur.hi <= n < |s|
    ensures Total(rest + [cur]) == Total(rest) + Size(cur)
    ensures Total(rest) >= 0
  {
    var segs := rest + [cur];
    assert segs[|rest|] == cur && segs[..|rest|] == rest;
    TotalNat(rest, n) by {
      assert forall k :: 0 <= k < |rest| ==> rest[k] == segs[k];
    }
  }

  lemma RearrangedWider(s: seq<nat>, t: seq<nat>, u: seq<nat>, lo: int, hi: int, n: nat)
    requires Rearranged(s, t, 1, n) && Rearranged(t, u, lo, hi) && 1 <= lo && hi <= n
    ensures Rearranged(s, u, 1, n)
  {}

  /** The insertion-sort branch. */
  method FinishSegment(ids: array<nat>, l: nat, ir: int, ghost s0: seq<nat>, ghost n: nat, ghost stack: seq<Seg>)
    requires Sorting(ids[..], n, stack + [Seg(l, ir)]) && Rearranged(s0, ids[..], 1, n)
    modifies ids
    ensures Sorting(ids[..], n, stack) && Rearranged(s0, ids[..], 1, n)
  {
    ghost var s := ids[..];
    LastSegment(s, n, stack, Seg(l, ir));
    LeftOfSegment(s, n, stack, Seg(l, ir));
    hide Sorting, Rearranged;
    InsertionPass(ids, l, ir);
    PopStep(s, ids[..], n, stack, Seg(l, ir));
    RearrangedWider(s0, s, ids[..], l, ir, n);
  }

  /** The partition branch: both orders of pushing the two parts are fine when the first is the larger. */
  method SplitSegment(ids: array<nat>, l: nat, ir: int, ghost s0: seq<nat>, ghost n: nat, ghost stack: seq<Seg>)
    returns (i: nat, j: nat)
    requires Sorting(ids[..], n, stack + [Seg(l, ir)]) && Rearranged(s0, ids[..], 1, n)
    requires ir - l >= SMALL && n < 0x8000_0000
    modifies ids
    ensures Rearranged(s0, ids[..], 1, n)
    ensures l + 1 <= j < i <= ir && |stack| < 28
    ensures ir - i + 1 >= j - l ==> Sorting(ids[..], n, stack + [Seg(i, ir), Seg(l, j - 1)])
    ensures ir - i + 1 < j - l ==> Sorting(ids[..], n, stack + [Seg(l, j - 1), Seg(i, ir)])
  {
    ghost var s, cur, segs := ids[..], Seg(l, ir), stack + [Seg(l, ir)];
    assert segs[|stack|] == cur;
    LastSegment(s, n, stack, cur);
    DepthBound(segs, n);
    hide Sorting, Rearranged;
    ghost var a: nat;
    i, j, a := Partition(ids, l, ir);
    if ir - i + 1 >= j - l {
      PushStep(s, ids[..], n, stack, cur, Seg(i, ir), Seg(l, j - 1), i, j, a);
    } else {
      PushStep(s, ids[..], n, stack, cur, Seg(l, j - 1), Seg(i, ir), i, j, a);
    }
    RearrangedWider(s0, s, ids[..], l, ir, n);
  }

  lemma SortStart(s: seq<nat>, n: nat)
    requires n < |s|
    ensures Sorting(s, n, [] + [Seg(1, n)]) && Rearranged(s, s, 1, n)
  {
    var segs := [] + [Seg(1, n)];
    assert segs[0] == Seg(1, n) && |segs| == 1;
    forall p, q | 1 <= p < q <= n ensures InSome(segs, p, q) { assert Within(segs[0], p, q); }
  }

  lemma SortEnd(s: seq<nat>, t: seq<nat>, n: nat)
    requires n < |s| && Sorting(t, n, []) && Rearranged(s, t, 1, n)
    ensures Descending(t[1..n + 1]) && multiset(t[1..n + 1]) == multiset(s[1..n + 1])
    ensures t[0] == s[0] && forall q :: n < q < |s| ==> t[q] == s[q]
  {
    assert t[..1] == s[..1] && t[n + 1..] == s[n + 1..];
    SameInside(s, t, 1, n + 1);
  }

  /**
    mdb_midl_sort.  The list comes out descending and a permutation of what it was; the
    words behind it are untouched; every access to the fixed stack is in bounds for every
    length that fits an int.
   */
  method Sort(ids: array<nat>)
    requires IsIdl(ids) && ids[0] < 0x8000_0000
    modifies ids
    ensures IsIdl(ids) && ids[0] == old(ids[0])
    ensures Descending(Entries(ids))
    ensures multiset(Entries(ids)) == old(multiset(Entries(ids)))
    ensures forall q :: ids[0] < q < ids.Length ==> ids[q] == old(ids[q])
  {
    hide Sorting, Rearranged, Total;
    var n := ids[0];
    ghost var s0 := ids[..];
    var istack := new int[ISTACK](_ => 0);
    var ir: int, l: nat, jstack := n, 1, 0;
    ghost var stack: seq<Seg> := [];
    SortStart(s0, n);
    while true
      invariant 0 <= jstack == 2 * |stack|
      invariant StackHolds(istack[..], stack)
      invariant Sorting(ids[..], n, stack + [Seg(l, ir)])
      invariant Rearranged(s0, ids[..], 1, n)
      decreases Total(stack + [Seg(l, ir)]), |stack|
    {
      LastSegment(ids[..], n, stack, Seg(l, ir));
      if ir - l < SMALL {
        FinishSegment(ids, l, ir, s0, n, stack);
        if jstack == 0 {
          break;
        }
        ghost var top, below := stack[|stack| - 1], stack[..|stack| - 1];
        assert stack == below + [top];
        ir := istack[jstack];
        jstack := jstack - 1;
        l := istack[jstack];
        jstack := jstack - 1;
        assert Seg(l, ir) == top;
        stack := below;
      } else {
        var i, j := SplitSegment(ids, l, ir, s0, n, stack);
        ghost var left, right := Seg(l, j - 1), Seg(i, ir);
        jstack := jstack + 2;
        if ir - i + 1 >= j - l {
          istack[jstack] := ir;
          istack[jstack - 1] := i;
          assert stack + [right, left] == (stack + [right]) + [left];
          LastSegment(ids[..], n, stack + [right], left);
          TotalSnoc(stack, right);
          stack := stack + [right];
          ir := j - 1;
        } else {
          istack[jstack] := j - 1;
          istack[jstack - 1] := l;
          assert stack + [left, right] == (stack + [left]) + [right];
          LastSegment(ids[..], n, stack + [left], right);
          TotalSnoc(stack, left);
          stack := stack + [left];
          l := i;
        }
      }
    }
    SortEnd(s0, ids[..], n);
    assert Entries(ids) == ids[..][1..n + 1];
    assert old(Entries(ids)) == s0[1..n + 1];
  }

  lemma TotalSnoc(segs: seq<Seg>, g: Seg)
    ensures Total(segs + [g]) == Total(segs) + Size(g)
  {
    assert (segs + [g])[..|segs|] == segs;
  }
}
