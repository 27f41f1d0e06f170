/**
  ID lists (midl.c): arrays of page numbers in descending order whose slot 0 holds the
  number of entries.  An array `ids` stands for the C pointer of the same name: its
  capacity `ids[-1]` is `ids.Length - 1`.
 */
module IdLists {

  /** Largest MDB_ID, used as a sentinel. */
  const MAX_ID: nat := 0xFFFF_FFFF_FFFF_FFFF

  const UM_MAX: nat := 0x1_FFFF

  ghost predicate IsIdl(ids: array<nat>)
    reads ids
  {
    ids.Length >= 1 && ids[0] < ids.Length
  }

  /** The entries of a list. */
  ghost function Entries(ids: array<nat>): seq<nat>
    requires IsIdl(ids)
    reads ids
  {
    ids[1..ids[0] + 1]
  }

  ghost predicate Descending(s: seq<nat>) {
    forall i, j :: 0 <= i < j < |s| ==> s[i] >= s[j]
  }

  ghost predicate StrictlyDescending(s: seq<nat>) {
    forall i, j :: 0 <= i < j < |s| ==> s[i] > s[j]
  }

  lemma PrefixSlice(s: seq<nat>, n: nat, a: nat, b: nat)
    requires a <= b <= n <= |s|
    ensures s[..n][a..b] == s[a..b] && (n > 0 ==> s[..n][0] == s[0])
  {
    var l, r := s[..n][a..b], s[a..b];
    assert |l| == |r| && forall i :: 0 <= i < |r| ==> l[i] == r[i];
  }

  // ---------------------------------------------------------------- search

  /**
    mdb_midl_search: where `id` is, or else the first position whose entry is smaller.
    (The comment in midl.c says "first position greater"; the lists are descending.)
   */
  method Search(ids: array<nat>, id: nat) returns (x: nat)
    requires IsIdl(ids) && Descending(Entries(ids))
    ensures 1 <= x <= ids[0] + 1
    ensures forall i :: 1 <= i < x ==> ids[i] >= id
    ensures forall i :: x <= i <= ids[0] ==> ids[i] <= id
    ensures id in Entries(ids) <==> x <= ids[0] && ids[x] == id
  {
    ghost var e := Entries(ids);
    assert forall i {:trigger ids[i]} :: 1 <= i <= ids[0] ==> ids[i] == e[i - 1];
    var base, cursor, val, n := 0, 1, 0, ids[0];
    while 0 < n
      invariant 0 <= base && 0 <= n && base + n <= ids[0]
      invariant forall i :: 0 <= i < base ==> e[i] > id
      invariant forall i :: base + n <= i < |e| ==> e[i] < id
      invariant val > 0 ==> cursor == base
      invariant val < 0 ==> cursor == base + n + 1
      invariant val == 0 ==> base == 0 && n == ids[0] && cursor == 1
    {
      var pivot := n / 2;
      cursor := base + pivot + 1;
      val := Cmp(ids[cursor], id);
      if val < 0 {
        n := pivot;
      } else if val > 0 {
        base := cursor;
        n := n - (pivot + 1);
      } else {
        return cursor;
      }
    }
    if val > 0 {
      cursor := cursor + 1;
    }
    x := cursor;
  }

  function Cmp(x: int, y: int): int {
    if x < y then -1 else if x > y then 1 else 0
  }

  // ---------------------------------------------------------------- room

  /** realloc: a longer array that starts with the old one. */
  method Realloc(ids: array<nat>, length: nat) returns (r: array<nat>)
    requires ids.Length <= length
    ensures fresh(r) && r.Length == length && r[..ids.Length] == ids[..]
  {
    r := new nat[length](i => 0);
    forall i | 0 <= i < ids.Length {
      r[i] := ids[i];
    }
  }

  /** mdb_midl_need: room for `num` more entries. */
  method Need(ids: array<nat>, num: nat) returns (r: array<nat>)
    requires IsIdl(ids)
    ensures r == ids || fresh(r)
    ensures IsIdl(r) && Entries(r) == Entries(ids)
    ensures r.Length >= ids.Length && r[0] + num < r.Length
    ensures r == ids <==> ids[0] + num < ids.Length
    ensures r != ids ==>
      var want := ids[0] + num; (r.Length + 1) % 256 == 0 && want + want / 4 + 2 < r.Length + 1 <= want + want / 4 + 258
  {
    var want := num + ids[0];
    r := ids;
    if want > ids.Length - 1 {
      var words := (want + want / 4 + (256 + 2)) / 256 * 256;
      r := Realloc(ids, words - 1);
      assert r[0] == ids[..][0];
      assert Entries(r) == r[..ids.Length][1..ids[0] + 1];
    }
  }

  /** mdb_midl_grow */
  method Grow(ids: array<nat>, num: nat) returns (r: array<nat>)
    requires IsIdl(ids)
    ensures fresh(r) && r.Length == ids.Length + num
    ensures IsIdl(r) && Entries(r) == Entries(ids)
  {
    r := Realloc(ids, ids.Length + num);
    assert r[0] == ids[..][0];
    assert Entries(r) == r[..ids.Length][1..ids[0] + 1];
  }

  /** mdb_midl_append */
  method Append(ids: array<nat>, id: nat) returns (r: array<nat>)
    requires IsIdl(ids)
    modifies ids
    ensures r == ids || fresh(r)
    ensures IsIdl(r) && Entries(r) == old(Entries(ids)) + [id]
  {
    r := ids;
    if ids[0] >= ids.Length - 1 {
      r := Grow(ids, UM_MAX);
    }
    ghost var before := Entries(r);
    r[0] := r[0] + 1;
    r[r[0]] := id;
    assert Entries(r) == before + [id];
  }

  /** mdb_midl_append_list */
  method AppendList(ids: array<nat>, app: array<nat>) returns (r: array<nat>)
    requires IsIdl(ids) && IsIdl(app) && ids != app
    modifies ids
    ensures r == ids || fresh(r)
    ensures IsIdl(r) && Entries(r) == old(Entries(ids)) + Entries(app)
  {
    r := ids;
    if ids[0] + app[0] >= ids.Length - 1 {
      r := Grow(ids, app[0]);
    }
    ghost var s := r[..];
    var n, m := r[0], app[0];
    CopyIn(r, n + 1, app, m);
    r[0] := n + m;
    Joined(s, r[..], n, m, Entries(app));
  }

  /** memcpy of the first `m` entries of a list. */
  method CopyIn(r: array<nat>, at: nat, app: array<nat>, m: nat)
    requires 0 < at && at + m <= r.Length && m < app.Length && r != app
    modifies r
    ensures forall q {:trigger r[q]} :: 0 <= q < r.Length ==>
      r[q] == if at <= q < at + m then app[q - at + 1] else old(r[q])
  {
    forall q | at <= q < at + m {
      r[q] := app[q - at + 1];
    }
  }

  lemma Joined(s: seq<nat>, t: seq<nat>, n: nat, m: nat, app: seq<nat>)
    requires |s| == |t| && n + m < |s| && |app| == m
    requires forall q {:trigger t[q]} :: 1 <= q <= n ==> t[q] == s[q]
    requires forall q {:trigger t[q]} :: n < q <= n + m ==> t[q] == app[q - n - 1]
    ensures t[1..n + m + 1] == s[1..n + 1] + app
  {
    var l, r := t[1..n + m + 1], s[1..n + 1] + app;
    forall i | 0 <= i < n + m ensures l[i] == r[i] { assert l[i] == t[i + 1]; }
  }

  /** The `n` numbers from `id` upwards, largest first. */
  function RangeDown(id: nat, n: nat): (s: seq<nat>)
    ensures |s| == n && forall i :: 0 <= i < n ==> s[i] == id + (n - 1 - i)
  {
    seq(n, i requires 0 <= i < n => id + (n - 1 - i))
  }

  /** mdb_midl_append_range: the loop fills from the end. */
  method AppendRange(ids: array<nat>, id: nat, n: nat) returns (r: array<nat>)
    requires IsIdl(ids)
    modifies ids
    ensures r == ids || fresh(r)
    ensures IsIdl(r) && Entries(r) == old(Entries(ids)) + RangeDown(id, n)
  {
    r := ids;
    var len := ids[0];
    if len + n > ids.Length - 1 {
      r := Grow(ids, n / (UM_MAX + 1) * (UM_MAX + 1) + UM_MAX);  // n | MDB_IDL_UM_MAX
    }
    ghost var s := r[..];
    r[0] := len + n;
    FillRange(r, len, n, id);
    Joined(s, r[..], len, n, RangeDown(id, n));
  }

  /** `t` is `s` with the numbers from `id` on in the `n` places behind `len`, largest first. */
  ghost predicate Filled(s: seq<nat>, t: seq<nat>, len: nat, n: nat, id: nat) {
    && |s| == |t| > len + n
    && (forall q {:trigger t[q]} :: 0 <= q <= len || len + n < q < |t| ==> t[q] == s[q])
    && (forall q {:trigger t[q]} :: len < q <= len + n ==> t[q] == id + (len + n - q))
  }

  /** Fill entries len + 1 .. len + n from the end, with rising numbers. */
  method FillRange(r: array<nat>, len: nat, n: nat, id: nat)
    requires len + n < r.Length
    modifies r
    ensures Filled(old(r[..]), r[..], len, n, id)
  {
    var k, next := n, id;
    while k > 0
      invariant 0 <= k <= n && next == id + (n - k)
      invariant forall q {:trigger r[q]} :: 0 <= q <= len || len + n < q < r.Length ==> r[q] == old(r[q])
      invariant forall q {:trigger r[q]} :: len + k < q <= len + n ==> r[q] == id + (len + n - q)
    {
      r[len + k] := next;
      k, next := k - 1, next + 1;
    }
  }

  // ---------------------------------------------------------------- merge

  /** The list stored in `m` from index `off` on. */
  ghost predicate IsListAt(m: array<nat>, off: nat)
    reads m
  {
    off < m.Length && off + m[off] < m.Length
  }

  ghost function ListAt(m: array<nat>, off: nat): seq<nat>
    requires IsListAt(m, off)
    reads m
  {
    m[off + 1..off + m[off] + 1]
  }

  /** Everything in `xs` is at least everything in `ys`. */
  ghost predicate AllAbove(xs: seq<nat>, ys: seq<nat>) {
    forall i, j :: 0 <= i < |xs| && 0 <= j < |ys| ==> xs[i] >= ys[j]
  }

  /** `left` and `right` are what remains of A and B; `tail` is the merged rest. */
  ghost predicate MergeState(left: seq<nat>, right: seq<nat>, tail: seq<nat>, all: multiset<nat>) {
    && Descending(left) && Descending(right) && Descending(tail)
    && AllAbove(left, tail) && AllAbove(right, tail)
    && multiset(left) + multiset(right) + multiset(tail) == all
  }

  lemma DescendingParts(a: seq<nat>, b: seq<nat>)
    ensures Descending(a + b) <==> Descending(a) && Descending(b) && AllAbove(a, b)
  {
    var c := a + b;
    assert forall i {:trigger a[i]} :: 0 <= i < |a| ==> a[i] == c[i];
    assert forall i {:trigger b[i]} :: 0 <= i < |b| ==> b[i] == c[|a| + i];
  }

  lemma AboveParts(a: seq<nat>, b: seq<nat>, c: seq<nat>)
    ensures AllAbove(a + b, c) <==> AllAbove(a, c) && AllAbove(b, c)
    ensures AllAbove(a, b + c) <==> AllAbove(a, b) && AllAbove(a, c)
  {
    var d, e := a + b, b + c;
    assert forall i {:trigger a[i]} :: 0 <= i < |a| ==> a[i] == d[i];
    assert forall i {:trigger b[i]} :: 0 <= i < |b| ==> b[i] == d[|a| + i] && b[i] == e[i];
    assert forall i {:trigger c[i]} :: 0 <= i < |c| ==> c[i] == e[|b| + i];
  }

  lemma SameParts(left: seq<nat>, block: seq<nat>, right: seq<nat>, x: nat, tail: seq<nat>)
    ensures multiset(left) + multiset(right) + multiset([x] + block + tail)
      == multiset(left + block) + multiset(right + [x]) + multiset(tail)
  {}

  /** One round of the merge: a block of the first list, then one entry of the second, go in front of `tail`. */
  lemma MergeRound(left: seq<nat>, block: seq<nat>, right: seq<nat>, x: nat, tail: seq<nat>, all: multiset<nat>)
    requires MergeState(left + block, right + [x], tail, all)
    requires AllAbove(left, [x])
    requires forall i :: 0 <= i < |block| ==> block[i] < x
    ensures MergeState(left, right, [x] + block + tail, all)
  {
    assert AllAbove([x], block);
    DescendingParts(left, block);
    DescendingParts(right, [x]);
    RightAbove(right, x, block);
    hide Descending, AllAbove;
    AboveParts(left, block, tail);
    AboveParts(right, [x], tail);
    DescendingParts([x], block);
    DescendingParts([x] + block, tail);
    AboveParts([x], block, tail);
    AboveParts(left, [x] + block, tail);
    AboveParts(left, [x], block);
    AboveParts(right, [x] + block, tail);
    AboveParts(right, [x], block);
    assert Descending([x]) by { OneDescends(x); }
    SameParts(left, block, right, x, tail);
  }

  lemma OneDescends(x: nat)
    ensures Descending([x])
  {}

  lemma RightAbove(right: seq<nat>, x: nat, block: seq<nat>)
    requires AllAbove(right, [x]) && AllAbove([x], block)
    ensures AllAbove(right, block)
  {
    forall i, j | 0 <= i < |right| && 0 <= j < |block| ensures right[i] >= block[j] {
      assert right[i] >= [x][0] && [x][0] >= block[j];
    }
  }

  lemma MergeStart(A: seq<nat>, B: seq<nat>)
    requires Descending(A) && Descending(B)
    ensures MergeState(A, B, [], multiset(A) + multiset(B))
  {}

  lemma MergeEnd(left: seq<nat>, tail: seq<nat>, all: multiset<nat>)
    requires MergeState(left, [], tail, all)
    ensures Descending(left + tail) && multiset(left + tail) == all
  {}

  /** `t` is `s` with entries j+1 .. j0 moved up by `d` places and `x` stored below them. */
  ghost predicate Shifted(s: seq<nat>, t: seq<nat>, j: nat, j0: nat, d: nat, x: nat) {
    && |t| == |s| && 0 < d && j <= j0 && j0 + d < |s|
    && t[j + d] == x
    && (forall q {:trigger t[q]} :: j + d < q <= j0 + d ==> t[q] == s[q - d])
    && (forall q {:trigger t[q]} :: 0 <= q < j + d || j0 + d < q < |s| ==> t[q] == s[q])
  }

  /** The inner loop of the merge and the store after it. */
  method InsertBelow(idl: array<nat>, j0: nat, d: nat, x: nat) returns (j: nat)
    requires 0 < d && j0 + d < idl.Length && x <= idl[0]
    modifies idl
    ensures j <= j0 && old(idl[j]) >= x
    ensures forall q :: j < q <= j0 ==> old(idl[q]) < x
    ensures Shifted(old(idl[..]), idl[..], j, j0, d, x)
  {
    j := j0;
    var k := j0 + d;
    var oldId := idl[j];
    while oldId < x
      invariant 0 <= j <= j0 && k == j + d && oldId == old(idl[j])
      invariant forall q :: j < q <= j0 ==> old(idl[q]) < x
      invariant forall q {:trigger idl[q]} :: k < q <= j0 + d ==> idl[q] == old(idl[q - d])
      invariant forall q {:trigger idl[q]} :: 0 <= q <= k || j0 + d < q < idl.Length ==> idl[q] == old(idl[q])
      decreases j
    {
      idl[k] := oldId;
      k := k - 1;
      j := j - 1;
      oldId := idl[j];
    }
    idl[k] := x;
  }

  /** Between rounds: `i` and `j` entries remain, the rest is merged in place behind them. */
  ghost predicate Merging(s: seq<nat>, i: nat, j: nat, total: nat, A: seq<nat>, B: seq<nat>) {
    && i <= |B| && j <= |A| && i + j <= total < |s|
    && s[0] == MAX_ID && s[1..j + 1] == A[..j]
    && MergeState(A[..j], B[..i], s[i + j + 1..total + 1], multiset(A) + multiset(B))
  }

  lemma AboveLast(A: seq<nat>, j: nat, x: nat)
    requires Descending(A) && j <= |A| && (j > 0 ==> A[j - 1] >= x)
    ensures AllAbove(A[..j], [x])
  {}

  lemma ShiftedSlices(s: seq<nat>, t: seq<nat>, j: nat, j0: nat, d: nat, x: nat, total: nat)
    requires Shifted(s, t, j, j0, d, x) && j0 + d <= total < |s|
    ensures t[j + d..total + 1] == [x] + s[j + 1..j0 + 1] + s[j0 + d + 1..total + 1]
    ensures t[total + 1..] == s[total + 1..] && t[1..j + 1] == s[1..j + 1] && t[0] == s[0]
  {
    var l, r := t[j + d..total + 1], [x] + s[j + 1..j0 + 1] + s[j0 + d + 1..total + 1];
    assert |l| == |r|;
    forall q | 0 <= q < |l| ensures l[q] == r[q] { assert l[q] == t[j + d + q]; }
    var f, g, u, v := t[1..j + 1], s[1..j + 1], t[total + 1..], s[total + 1..];
    forall q | 0 <= q < j ensures f[q] == g[q] { assert f[q] == t[1 + q]; }
    forall q | 0 <= q < |v| ensures u[q] == v[q] { assert u[q] == t[total + 1 + q]; }
  }

  lemma MergingStep(s: seq<nat>, t: seq<nat>, i: nat, d: nat, j0: nat, j: nat, total: nat, A: seq<nat>, B: seq<nat>)
    requires d == i + 1 <= |B| && j <= j0 && j0 + d <= total < |s|
    requires Descending(A) && Merging(s, d, j0, total, A, B) && s[j] >= B[i]
    requires forall q :: j < q <= j0 ==> s[q] < B[i]
    requires Shifted(s, t, j, j0, d, B[i])
    ensures Merging(t, i, j, total, A, B) && t[0] == s[0]
    ensures t[total + 1..] == s[total + 1..]
  {
    hide MergeState, AllAbove, Descending;
    var x, block, tail := B[i], s[j + 1..j0 + 1], s[j0 + d + 1..total + 1];
    ShiftedSlices(s, t, j, j0, d, x, total);
    hide Shifted;
    assert s[1..j0 + 1] == s[1..j + 1] + block;
    assert A[..j0] == A[..j] + block && s[1..j + 1] == A[..j];
    assert j > 0 ==> A[j - 1] == s[1..j + 1][j - 1];
    AboveLast(A, j, x);
    assert B[..d] == B[..i] + [x];
    MergeRound(A[..j], block, B[..i], x, tail, multiset(A) + multiset(B));
  }

  /**
    mdb_midl_xmerge: merge a second descending list into the first, in place, from the
    end.  Slot 0 holds a sentinel meanwhile.  The second list may sit in the tail of the
    same buffer.
   */
  method XMerge(idl: array<nat>, merge: array<nat>, off: nat)
    requires IsIdl(idl) && IsListAt(merge, off)
    requires idl[0] + merge[off] < idl.Length
    requires idl == merge ==> idl[0] + merge[off] < off
    requires Descending(Entries(idl)) && Descending(ListAt(merge, off))
    requires forall i :: 0 <= i < merge[off] ==> ListAt(merge, off)[i] <= MAX_ID
    modifies idl
    ensures IsIdl(idl) && idl[0] == old(idl[0] + merge[off])
    ensures Descending(Entries(idl))
    ensures multiset(Entries(idl)) == old(multiset(Entries(idl)) + multiset(ListAt(merge, off)))
    ensures idl[..][idl[0] + 1..] == old(idl[..][idl[0] + merge[off] + 1..])
  {
    hide MergeState, Descending, Merging;
    ghost var A, B := Entries(idl), ListAt(merge, off);
    var i: nat, j: nat := merge[off], idl[0];
    var total := i + j;
    MergeStart(A, B);
    idl[0] := MAX_ID;
    ghost var end := idl[..][total + 1..];
    MergingStart(idl[..], A, B, total);
    j := MergeAll(idl, merge, off, j, total, A, B);
    ghost var done := idl[..];
    idl[0] := total;
    MergingEnd(done, j, total, A, B);
    assert Entries(idl) == done[1..total + 1];
    assert idl[..][total + 1..] == done[total + 1..];
  }

  /** All rounds, from the last entry of the second list on. */
  method MergeAll(
      idl: array<nat>, merge: array<nat>, off: nat, j0: nat, ghost total: nat, ghost A: seq<nat>, ghost B: seq<nat>)
    returns (j: nat)
    requires off < merge.Length && (if idl == merge then total < off else true) && off + |B| < merge.Length &&
      merge[off] == |B|
    requires |B| + j0 <= total < idl.Length && idl[0] == MAX_ID && Descending(A) &&
      Merging(idl[..], |B|, j0, total, A, B)
    requires forall q {:trigger B[q]} :: 0 <= q < |B| ==> B[q] == merge[off + 1 + q] <= MAX_ID
    modifies idl
    ensures j <= total && Merging(idl[..], 0, j, total, A, B) && idl[..][total + 1..] == old(idl[..])[total + 1..]
  {
    hide Merging, Descending;
    ghost var end := idl[..][total + 1..];
    var i: nat := merge[off];
    j := j0;
    while i > 0
      invariant Merging(idl[..], i, j, total, A, B) && i <= |B| && i + j <= total && idl[0] == MAX_ID
      invariant idl[..][total + 1..] == end
    {
      if idl == merge { TailIs(idl[..], end, total + 1, off + i); TailIs(old(idl[..]), end, total + 1, off + i); }
      assert merge[off + i] == B[i - 1];
      j := MergeOne(idl, i, j, merge[off + i], total, A, B);
      i := i - 1;
    }
  }

  /** One round: insert the largest entry left of the second list. */
  method MergeOne(
      idl: array<nat>, i: nat, j0: nat, x: nat, ghost total: nat, ghost A: seq<nat>, ghost B: seq<nat>)
    returns (j: nat)
    requires 0 < i <= |B| && i + j0 <= total < idl.Length && idl[0] == MAX_ID && x == B[i - 1] <= MAX_ID
    requires Descending(A) && Merging(idl[..], i, j0, total, A, B)
    modifies idl
    ensures j <= j0 && idl[0] == MAX_ID && Merging(idl[..], i - 1, j, total, A, B) &&
      idl[..][total + 1..] == old(idl[..])[total + 1..]
  {
    hide Merging, Descending;
    ghost var before := idl[..];
    j := InsertBelow(idl, j0, i, x);
    hide Shifted;
    MergingStep(before, idl[..], i - 1, i, j0, j, total, A, B);
  }

  lemma TailIs(s: seq<nat>, end: seq<nat>, n: nat, q: nat)
    requires n <= q < |s| && s[n..] == end
    ensures q - n < |end| && s[q] == end[q - n]
  {}

  lemma MergingStart(s: seq<nat>, A: seq<nat>, B: seq<nat>, total: nat)
    requires total == |A| + |B| < |s| && s[0] == MAX_ID && s[1..|A| + 1] == A
    requires MergeState(A, B, [], multiset(A) + multiset(B))
    ensures Merging(s, |B|, |A|, total, A, B)
  {
    hide MergeState;
    assert A[..|A|] == A && B[..|B|] == B && s[total + 1..total + 1] == [];
  }

  lemma MergingEnd(s: seq<nat>, j: nat, total: nat, A: seq<nat>, B: seq<nat>)
    requires Merging(s, 0, j, total, A, B)
    ensures Descending(s[1..total + 1]) && multiset(s[1..total + 1]) == multiset(A) + multiset(B)
  {
    hide MergeState, Descending;
    assert B[..0] == [];
    assert s[1..total + 1] == s[1..j + 1] + s[j + 1..total + 1];
    MergeEnd(A[..j], s[j + 1..total + 1], multiset(A) + multiset(B));
  }
}
