/** A child transaction hands its dirty pages to its parent: in-place merges of sorted lists. */
module NestedCommit {
  import opened IdLists

  /** A dirty page: its number, and the buffer that holds it. */
  datatype Id2 = Id2(mid: nat, mptr: int)

  // ---------------------------------------------------------------- sorted lists of dirty pages

  ghost predicate Ascending(l: seq<Id2>) {
    && (forall i :: 0 <= i < |l| ==> l[i].mid >= 1)
    && (forall i, j :: 0 <= i < j < |l| ==> l[i].mid < l[j].mid)
  }

  /** An ID2L: entry 0 holds the count, the entries follow. */
  ghost predicate IsList(a: seq<Id2>) {
    |a| > 0 && a[0].mid < |a| && Ascending(ListOf(a))
  }

  function ListOf(a: seq<Id2>): seq<Id2>
    requires |a| > 0 && a[0].mid < |a|
  {
    a[1..a[0].mid + 1]
  }

  /** All pages of both lists; of a page in both, the child's buffer. */
  function Union(parent: seq<Id2>, child: seq<Id2>): (u: seq<Id2>)
    ensures |u| >= |parent| && |u| >= |child| && |u| <= |parent| + |child|
    decreases |parent| + |child|
  {
    var p, c := |parent| - 1, |child| - 1;
    if child == [] then parent
    else if parent == [] then child
    else if child[c].mid < parent[p].mid then Union(parent[..p], child) + [parent[p]]
    else if child[c].mid == parent[p].mid then Union(parent[..p], child[..c]) + [child[c]]
    else Union(parent, child[..c]) + [child[c]]
  }

  ghost predicate HasPage(l: seq<Id2>, mid: nat) {
    exists i :: 0 <= i < |l| && l[i].mid == mid
  }

  /** The union holds the child's entries, and the parent's for all other pages. */
  lemma {:induction false} UnionHolds(parent: seq<Id2>, child: seq<Id2>, e: Id2)
    requires Ascending(parent) && Ascending(child)
    ensures e in Union(parent, child) <==> e in child || (e in parent && !HasPage(child, e.mid))
    decreases |parent| + |child|
  {
    var p, c := |parent| - 1, |child| - 1;
    if child != [] && parent != [] {
      assert parent == parent[..p] + [parent[p]] && child == child[..c] + [child[c]];
      HasPageLast(child, e.mid);
      if child[c].mid < parent[p].mid {
        UnionHolds(parent[..p], child, e);
      } else if child[c].mid == parent[p].mid {
        UnionHolds(parent[..p], child[..c], e);
      } else {
        UnionHolds(parent, child[..c], e);
      }
    }
  }

  lemma HasPageLast(l: seq<Id2>, mid: nat)
    requires l != []
    ensures HasPage(l, mid) <==> HasPage(l[..|l| - 1], mid) || l[|l| - 1].mid == mid
  {
    var n := |l| - 1;
    if HasPage(l[..n], mid) {
      var i :| 0 <= i < n && l[..n][i].mid == mid;
      assert l[i].mid == mid;
    }
    if HasPage(l, mid) {
      var i :| 0 <= i < |l| && l[i].mid == mid;
      if i < n { assert l[..n][i].mid == mid; }
    }
  }

  ghost predicate AllBelow(l: seq<Id2>, mid: nat) {
    forall i :: 0 <= i < |l| ==> l[i].mid < mid
  }

  lemma {:induction false} UnionBelow(parent: seq<Id2>, child: seq<Id2>, mid: nat)
    requires AllBelow(parent, mid) && AllBelow(child, mid)
    ensures AllBelow(Union(parent, child), mid)
    decreases |parent| + |child|
  {
    var p, c := |parent| - 1, |child| - 1;
    if child != [] && parent != [] {
      if child[c].mid < parent[p].mid {
        UnionBelow(parent[..p], child, mid);
      } else if child[c].mid == parent[p].mid {
        UnionBelow(parent[..p], child[..c], mid);
      } else {
        UnionBelow(parent, child[..c], mid);
      }
    }
  }

  lemma Appended(l: seq<Id2>, e: Id2)
    requires Ascending(l) && AllBelow(l, e.mid) && e.mid >= 1
    ensures Ascending(l + [e])
  {}

  lemma InitBelow(l: seq<Id2>, mid: nat)
    requires Ascending(l) && l != []
    ensures Ascending(l[..|l| - 1]) && AllBelow(l[..|l| - 1], l[|l| - 1].mid)
    ensures l[|l| - 1].mid < mid ==> AllBelow(l, mid)
  {}

  /** The union is strictly ascending: every page once. */
  lemma {:induction false} UnionAscends(parent: seq<Id2>, child: seq<Id2>)
    requires Ascending(parent) && Ascending(child)
    ensures Ascending(Union(parent, child))
    decreases |parent| + |child|
  {
    var p, c := |parent| - 1, |child| - 1;
    if child != [] && parent != [] {
      hide Ascending, AllBelow;
      InitBelow(parent, child[c].mid);
      InitBelow(child, parent[p].mid);
      LastPositive(parent);
      LastPositive(child);
      if child[c].mid < parent[p].mid {
        UnionAscends(parent[..p], child);
        UnionBelow(parent[..p], child, parent[p].mid);
        Appended(Union(parent[..p], child), parent[p]);
      } else if child[c].mid == parent[p].mid {
        UnionAscends(parent[..p], child[..c]);
        UnionBelow(parent[..p], child[..c], child[c].mid);
        Appended(Union(parent[..p], child[..c]), child[c]);
      } else {
        UnionAscends(parent, child[..c]);
        UnionBelow(parent, child[..c], child[c].mid);
        Appended(Union(parent, child[..c]), child[c]);
      }
    }
  }

  lemma LastPositive(l: seq<Id2>)
    requires Ascending(l) && l != []
    ensures l[|l| - 1].mid >= 1
  {}

  // ---------------------------------------------------------------- search and insert

  /** mdb_mid2l_search: where `id` is, or else the first position whose entry is greater. */
  method Search2(ids: array<Id2>, id: nat) returns (x: nat)
    requires IsList(ids[..])
    ensures 1 <= x <= ids[0].mid + 1
    ensures forall i :: 1 <= i < x ==> ids[i].mid < id
    ensures forall i :: x <= i <= ids[0].mid ==> ids[i].mid >= id
  {
    ghost var l := ListOf(ids[..]);
    assert forall i {:trigger ids[i]} :: 1 <= i <= ids[0].mid ==> ids[i] == l[i - 1];
    var base, cursor, val, n := 0, 1, 0, ids[0].mid;
    while 0 < n
      invariant 0 <= base && 0 <= n && base + n <= ids[0].mid
      invariant forall i :: 0 <= i < base ==> l[i].mid < id
      invariant forall i :: base + n <= i < |l| ==> l[i].mid > id
      invariant val > 0 ==> cursor == base
      invariant val < 0 ==> cursor == base + n + 1
      invariant val == 0 ==> base == 0 && n == ids[0].mid && cursor == 1
    {
      var pivot := n / 2;
      cursor := base + pivot + 1;
      val := id - ids[cursor].mid;
      if val < 0 {
        n := pivot;
      } else if val > 0 {
        base := cursor;
        n := n - (pivot + 1);
      } else {
        return cursor;
      }
    }
    if val > 0 { cursor := cursor + 1; }
    x := cursor;
  }

  /** Merging a single page inserts it. */
  lemma {:induction false} UnionOne(l: seq<Id2>, id: Id2, k: nat)
    requires Ascending(l) && k <= |l| && AllBelow(l[..k], id.mid) && (forall i :: k <= i < |l| ==> l[i].mid > id.mid)
    ensures Union(l, [id]) == l[..k] + [id] + l[k..]
    decreases |l| - k
  {
    var n := |l| - 1;
    if k < |l| {
      InitBelow(l, 0);
      UnionLast(l, id);
      assert l[..n][..k] == l[..k];
      hide Union, Ascending;
      UnionOne(l[..n], id, k);
      InsertSnoc(l, k, id);
    } else {
      assert l != [] ==> l[..k][n] == l[n];
      UnionLast(l, id);
      assert l[..k] == l && l[k..] == [];
    }
  }

  /** The union with a single page, by where it stands to the last one. */
  lemma UnionLast(l: seq<Id2>, id: Id2)
    ensures var n := |l| - 1;
      && (l != [] && l[n].mid > id.mid ==> Union(l, [id]) == Union(l[..n], [id]) + [l[n]])
      && (l == [] || l[n].mid < id.mid ==> Union(l, [id]) == l + [id])
  {
    assert [id][..0] == [] && l + [] == l;
  }

  lemma InsertSnoc(l: seq<Id2>, k: nat, id: Id2)
    requires k < |l|
    ensures var n := |l| - 1; l[..n][..k] + [id] + l[..n][k..] + [l[n]] == l[..k] + [id] + l[k..]
  {
    var n := |l| - 1;
    assert l[..n][..k] == l[..k];
    assert l[..n][k..] + [l[n]] == l[k..];
  }

  /** mdb_mid2l_insert: 0 when inserted, -1 for a page that is there already, -2 when full. */
  method Insert(ids: array<Id2>, id: Id2) returns (rc: int)
    requires IsList(ids[..]) && id.mid >= 1 && ids.Length > UM_MAX
    modifies ids
    ensures IsList(ids[..])
    ensures rc ==
      if HasPage(old(ListOf(ids[..])), id.mid) then -1
      else if |old(ListOf(ids[..]))| >= UM_MAX then -2
      else 0
    ensures rc != 0 ==> ids[..] == old(ids[..])
    ensures rc == 0 ==> ListOf(ids[..]) == Union(old(ListOf(ids[..])), [id])
  {
    ghost var l := ListOf(ids[..]);
    var x := Search2(ids, id.mid);
    EntriesOf(ids[..]);
    SearchFinds(l, id.mid, x);
    hide Union, Ascending, AllBelow, HasPage;
    if x <= ids[0].mid && ids[x].mid == id.mid { return -1; }
    if ids[0].mid >= UM_MAX { return -2; }
    InsertIsUnion(l, id, x);
    ShiftIn(ids, x, id);
    return 0;
  }

  lemma InsertIsUnion(l: seq<Id2>, id: Id2, x: nat)
    requires 1 <= x <= |l| + 1 && Ascending(l) && id.mid >= 1 && !(x <= |l| && l[x - 1].mid == id.mid)
    requires forall i :: 0 <= i < x - 1 ==> l[i].mid < id.mid
    requires forall i :: x - 1 <= i < |l| ==> l[i].mid >= id.mid
    ensures Union(l, [id]) == l[..x - 1] + [id] + l[x - 1..] && Ascending(Union(l, [id]))
  {
    hide Union, Ascending, AllBelow;
    BeforeAndAfter(l, id.mid, x);
    UnionOne(l, id, x - 1);
    OneAscends(id);
    UnionAscends(l, [id]);
  }

  lemma EntriesOf(a: seq<Id2>)
    requires IsList(a)
    ensures |ListOf(a)| == a[0].mid
      && forall i {:trigger ListOf(a)[i]} :: 0 <= i < |ListOf(a)| ==> ListOf(a)[i] == a[i + 1]
  {}

  lemma OneAscends(id: Id2)
    requires id.mid >= 1
    ensures Ascending([id])
  {}

  lemma BeforeAndAfter(l: seq<Id2>, mid: nat, x: nat)
    requires 1 <= x <= |l| + 1 && Ascending(l) && !(x <= |l| && l[x - 1].mid == mid)
    requires forall i :: 0 <= i < x - 1 ==> l[i].mid < mid
    requires forall i :: x - 1 <= i < |l| ==> l[i].mid >= mid
    ensures AllBelow(l[..x - 1], mid) && forall i :: x - 1 <= i < |l| ==> l[i].mid > mid
  {}

  lemma SearchFinds(l: seq<Id2>, mid: nat, x: nat)
    requires Ascending(l) && 1 <= x <= |l| + 1
    requires forall i :: 0 <= i < x - 1 ==> l[i].mid < mid
    requires forall i :: x - 1 <= i < |l| ==> l[i].mid >= mid
    ensures HasPage(l, mid) <==> x <= |l| && l[x - 1].mid == mid
  {}

  /** Count one more, and shift the entries from `x` on. */
  method ShiftIn(ids: array<Id2>, x: nat, id: Id2)
    requires ids.Length > 0 && 1 <= x <= ids[0].mid + 1 < ids.Length
    modifies ids
    ensures ids[0].mid == old(ids[0].mid) + 1 < ids.Length
    ensures ListOf(ids[..]) == old(ListOf(ids[..]))[..x - 1] + [id] + old(ListOf(ids[..]))[x - 1..]
  {
    ids[0] := Id2(ids[0].mid + 1, ids[0].mptr);
    var n := ids[0].mid;
    var i := n;
    while i > x
      invariant x <= i <= n && ids[0].mid == n
      invariant forall j :: 1 <= j < i ==> ids[j] == old(ids[j])
      invariant forall j :: i < j <= n ==> ids[j] == old(ids[j - 1])
    {
      ids[i] := ids[i - 1];
      i := i - 1;
    }
    ids[x] := id;
    ghost var s := old(ids[..]);
    ShiftedList(s, ids[..], s[0].mid, x, id);
  }

  lemma ShiftedList(s: seq<Id2>, t: seq<Id2>, n: nat, x: nat, id: Id2)
    requires |t| == |s| && 1 <= x <= n + 1 < |s| && t[x] == id
    requires forall j {:trigger t[j]} :: 1 <= j < x ==> t[j] == s[j]
    requires forall j {:trigger t[j]} :: x < j <= n + 1 ==> t[j] == s[j - 1]
    ensures t[1..n + 2] == s[1..n + 1][..x - 1] + [id] + s[1..n + 1][x - 1..]
  {
    var e, l := s[1..n + 1], t[1..n + 2];
    var r := e[..x - 1] + [id] + e[x - 1..];
    forall j | 0 <= j < n + 1 ensures l[j] == r[j] { assert l[j] == t[j + 1]; }
  }

  // ---------------------------------------------------------------- the length of the union

  /** Pages in both lists. */
  function Common(parent: seq<Id2>, child: seq<Id2>): nat {
    |parent| + |child| - |Union(parent, child)|
  }

  /** One comparison from the back. */
  lemma CommonStep(parent: seq<Id2>, child: seq<Id2>, i: nat, y: nat)
    requires i <= |parent| && y <= |child|
    ensures i == 0 || y == 0 ==> Common(parent[..i], child[..y]) == 0
    ensures i > 0 && y > 0 ==>
      Common(parent[..i], child[..y]) ==
        if child[y - 1].mid < parent[i - 1].mid then Common(parent[..i - 1], child[..y])
        else if child[y - 1].mid == parent[i - 1].mid then Common(parent[..i - 1], child[..y - 1]) + 1
        else Common(parent[..i], child[..y - 1])
  {
    if i > 0 && y > 0 {
      assert parent[..i][..i - 1] == parent[..i - 1] && child[..y][..y - 1] == child[..y - 1];
    }
  }

  lemma {:induction false} CommonDrop(parent: seq<Id2>, child: seq<Id2>, y: nat)
    requires y <= |child| && parent != [] && forall j :: y <= j < |child| ==> child[j].mid > parent[|parent| - 1].mid
    ensures Common(parent, child) == Common(parent, child[..y])
    decreases |child| - y
  {
    if y < |child| {
      CommonDrop(parent, child, y + 1);
      CommonStep(parent, child, |parent|, y + 1);
      assert parent[..|parent|] == parent;
    } else {
      assert child[..y] == child;
    }
  }

  /** The counting pass of mdb_txn_commit; the parent's list has its count at hand in `x`. */
  method CountUnion(dst: array<Id2>, src: array<Id2>, x: nat, ghost parent: seq<Id2>) returns (len: nat)
    requires dst != src && x < dst.Length && dst[0].mid == 0 && parent == dst[1..x + 1] && Ascending(parent) &&
      IsList(src[..])
    ensures len == |Union(parent, ListOf(src[..]))|
  {
    hide Union, Common;
    ghost var child := ListOf(src[..]);
    EntriesOf(src[..]);
    var y := Search2(src, dst[x].mid + 1);
    if x > 0 { CommonDrop(parent, child, y - 1); }
    CountIs(parent, child);
    CountEmpty(parent, child);
    CountEmpty(parent, child[..y - 1]);
    var common := CountCommon(dst, src, x, y - 1, parent, child);
    len := x + src[0].mid - common;
  }

  /** The loops of the counting pass, from the back; entry 0 of `dst` is a sentinel. */
  method CountCommon(
      dst: array<Id2>, src: array<Id2>, x: nat, y0: nat, ghost parent: seq<Id2>, ghost child: seq<Id2>)
    returns (found: nat)
    requires x < dst.Length && dst[0].mid == 0 && |parent| == x && y0 <= |child| < src.Length
    requires forall j {:trigger dst[j]} :: 1 <= j <= x ==> dst[j] == parent[j - 1]
    requires forall j {:trigger src[j]} :: 1 <= j <= |child| ==> src[j] == child[j - 1] && src[j].mid >= 1
    ensures found == Common(parent, child[..y0])
  {
    hide Union, Common;
    var i, y := x, y0;
    found := 0;
    assert parent[..x] == parent;
    while y > 0 && i > 0
      invariant 0 <= i <= x && 0 <= y <= y0
      invariant found + Common(parent[..i], child[..y]) == Common(parent, child[..y0])
      decreases y
    {
      var yp := src[y].mid;
      while yp < dst[i].mid
        invariant 0 <= i <= x && found + Common(parent[..i], child[..y]) == Common(parent, child[..y0])
        decreases i
      {
        CommonStep(parent, child, i, y);
        i := i - 1;
      }
      CommonStep(parent, child, i, y);
      y := y - 1;
      CommonStep(parent, child, i, y);
      if yp == dst[i].mid {
        i := i - 1;
        found := found + 1;
      }
    }
    CommonStep(parent, child, i, y);
  }

  lemma CountIs(parent: seq<Id2>, child: seq<Id2>)
    ensures |Union(parent, child)| == |parent| + |child| - Common(parent, child)
  {}

  lemma CountEmpty(parent: seq<Id2>, child: seq<Id2>)
    ensures parent == [] ==> Common(parent, child) == 0
  {}

  // ---------------------------------------------------------------- the merge in place

  /**
    The union is built `gap` places behind where it belongs.  Entries 1 .. x of the array are still
    the parent's, entries gap + i + 1 .. are final, and what is missing is the union of the unread
    parts.
   */
  ghost predicate Merging(a: seq<Id2>, parent: seq<Id2>, child: seq<Id2>, gap: nat, i: nat, x: nat, y: nat) {
    var u := Union(parent, child);
    && x <= |parent| && y <= |child| && x <= i <= |u| && gap + |u| < |a| && a[0].mid == 0
    && u[..i] == Union(parent[..x], child[..y])
    && Split(a, parent, u, gap, i, x)
  }

  /** Entries 1 .. x from `parent`, entries gap + i + 1 .. from `u`. */
  ghost predicate Split(a: seq<Id2>, parent: seq<Id2>, u: seq<Id2>, gap: nat, i: nat, x: nat)
    requires x <= |parent| && i <= |u| && gap + |u| < |a| && x < |a|
  {
    && (forall j {:trigger a[j]} :: 1 <= j <= x ==> a[j] == parent[j - 1])
    && (forall j {:trigger a[j]} :: gap + i < j <= gap + |u| ==> a[j] == u[j - gap - 1])
  }

  lemma StoreBack(a: seq<Id2>, parent: seq<Id2>, u: seq<Id2>, gap: nat, i: nat, x: nat, x': nat, v: Id2)
    requires x <= |parent| && x' <= x <= i <= |u| && gap + |u| < |a| && x' < i && u[i - 1] == v &&
      Split(a, parent, u, gap, i, x)
    ensures Split(a[gap + i := v], parent, u, gap, i - 1, x')
  {}

  lemma MergeStart(a: seq<Id2>, parent: seq<Id2>, child: seq<Id2>, gap: nat)
    requires gap + |Union(parent, child)| < |a| && a[0].mid == 0
    requires |parent| < |a| && parent == a[1..|parent| + 1]
    ensures Merging(a, parent, child, gap, |Union(parent, child)|, |parent|, |child|)
  {
    assert parent[..|parent|] == parent && child[..|child|] == child;
  }

  /** The parent's entry is the larger one. */
  lemma MergeParent(a: seq<Id2>, parent: seq<Id2>, child: seq<Id2>, gap: nat, i: nat, x: nat, y: nat)
    requires Merging(a, parent, child, gap, i, x, y) && x > 0 && y > 0 && child[y - 1].mid < a[x].mid
    ensures i > 0 && Merging(a[gap + i := a[x]], parent, child, gap, i - 1, x - 1, y)
  {
    var u, p := Union(parent, child), parent[..x];
    assert p[..x - 1] == parent[..x - 1] && p[x - 1] == parent[x - 1] == a[x];
    assert u[..i] == Union(parent[..x - 1], child[..y]) + [parent[x - 1]];
    assert u[i - 1] == u[..i][i - 1] == parent[x - 1];
    assert u[..i - 1] == u[..i][..i - 1];
    hide Union, Split;
    StoreBack(a, parent, u, gap, i, x, x - 1, a[x]);
  }

  /** The child's entry goes last; an equal one of the parent is dropped, and nothing unread is overwritten. */
  lemma MergeChild(a: seq<Id2>, parent: seq<Id2>, child: seq<Id2>, gap: nat, i: nat, x: nat, y: nat)
    requires Merging(a, parent, child, gap, i, x, y) && y > 0 && child[y - 1].mid >= a[x].mid && child[y - 1].mid >= 1
    ensures var x' := if child[y - 1].mid == a[x].mid then x - 1 else x;
      0 <= x' < i && Merging(a[gap + i := child[y - 1]], parent, child, gap, i - 1, x', y - 1)
  {
    var u := Union(parent, child);
    var x' := if child[y - 1].mid == a[x].mid then x - 1 else x;
    assert x > 0 ==> a[x] == parent[x - 1];
    UnionBack(parent, child, x, y);
    hide Union, Split;
    assert u[..i] == Union(parent[..x'], child[..y - 1]) + [child[y - 1]];
    assert u[i - 1] == u[..i][i - 1] == child[y - 1];
    assert u[..i - 1] == u[..i][..i - 1];
    StoreBack(a, parent, u, gap, i, x, x', child[y - 1]);
  }

  /** The last entry of a union of prefixes is the child's, unless the parent's is larger. */
  lemma UnionBack(parent: seq<Id2>, child: seq<Id2>, x: nat, y: nat)
    requires x <= |parent| && 0 < y <= |child|
    ensures x == 0 || child[y - 1].mid > parent[x - 1].mid ==>
      Union(parent[..x], child[..y]) == Union(parent[..x], child[..y - 1]) + [child[y - 1]]
    ensures x > 0 && child[y - 1].mid == parent[x - 1].mid ==>
      Union(parent[..x], child[..y]) == Union(parent[..x - 1], child[..y - 1]) + [child[y - 1]]
  {
    var p, c := parent[..x], child[..y];
    assert x > 0 ==> p[x - 1] == parent[x - 1] && p[..x - 1] == parent[..x - 1];
    assert c[y - 1] == child[y - 1] && c[..y - 1] == child[..y - 1] && c == c[..y - 1] + [c[y - 1]];
  }

  lemma MergeEnd(a: seq<Id2>, parent: seq<Id2>, child: seq<Id2>, gap: nat, i: nat, x: nat)
    requires Merging(a, parent, child, gap, i, x, 0)
    ensures i == x && a[1..x + 1] + a[gap + x + 1..gap + |Union(parent, child)| + 1] == Union(parent, child)
  {
    var u := Union(parent, child);
    assert u[..i] == parent[..x];
    hide Union, Split;
    assert i == |u[..i]| == |parent[..x]| == x;
    BothParts(a, parent, u, gap, x);
  }

  lemma BothParts(a: seq<Id2>, parent: seq<Id2>, u: seq<Id2>, gap: nat, x: nat)
    requires x <= |parent| && x <= |u| && gap + |u| < |a| && Split(a, parent, u, gap, x, x) && u[..x] == parent[..x]
    ensures a[1..x + 1] + a[gap + x + 1..gap + |u| + 1] == u
  {
    var v, w := a[1..x + 1], a[gap + x + 1..gap + |u| + 1];
    forall j | 0 <= j < |u| ensures (v + w)[j] == u[j] {
      if j < x {
        assert v[j] == a[j + 1] && u[j] == u[..x][j] == parent[..x][j];
      } else {
        assert w[j - x] == a[gap + j + 1];
      }
    }
  }

  /**
    The merge loop of mdb_txn_commit, for a length that is at least that of the union of both lists;
    `dst[0].mid` is 0 meanwhile.  A surplus stays as a gap between the parent's entries that did not
    have to move and the rest, so the closing assertion i == x holds exactly when there is none.
   */
  method MergeDirty(
      dst: array<Id2>, src: array<Id2>, x0: nat, len: nat, ghost parent: seq<Id2>)
    returns (i: nat, x: nat)
    requires dst != src && x0 < dst.Length && dst[0].mid == 0 && parent == dst[1..x0 + 1] && IsList(src[..])
    requires |Union(parent, ListOf(src[..]))| <= len < dst.Length
    modifies dst
    ensures x <= i <= len && i - x == len - |Union(parent, ListOf(src[..]))| && dst[0].mid == 0
    ensures i == x <==> len == |Union(parent, ListOf(src[..]))|
    ensures dst[1..x + 1] + dst[i + 1..len + 1] == Union(parent, ListOf(src[..]))
  {
    hide Union, Merging;
    ghost var child := ListOf(src[..]);
    ghost var gap: nat := len - |Union(parent, child)|;
    EntriesOf(src[..]);
    assert parent == dst[..][1..x0 + 1];
    MergeStart(dst[..], parent, child, gap);
    var y: nat := src[0].mid;
    i, x := len, x0;
    while y > 0
      invariant y <= |child| && x + gap <= i <= len && x <= x0 && dst[0].mid == 0
      invariant Merging(dst[..], parent, child, gap, i - gap, x, y)
    {
      i, x := ShiftParent(dst, src[y].mid, i, x, parent, child, gap, y);
      MergeChild(dst[..], parent, child, gap, i - gap, x, y);
      if src[y].mid == dst[x].mid { x := x - 1; }
      ghost var a := dst[..];
      dst[i] := src[y];
      assert dst[..] == a[i := child[y - 1]];
      i, y := i - 1, y - 1;
    }
    MergeEnd(dst[..], parent, child, gap, i - gap, x);
    assert dst[1..x + 1] == dst[..][1..x + 1] && dst[i + 1..len + 1] == dst[..][i + 1..len + 1];
  }

  /** Move the parent's entries above `yp` to their places. */
  method ShiftParent(
      dst: array<Id2>, yp: nat, i0: nat, x0: nat, ghost parent: seq<Id2>, ghost child: seq<Id2>, ghost gap: nat,
      ghost y: nat)
    returns (i: nat, x: nat)
    requires x0 + gap <= i0 < dst.Length && dst[0].mid == 0 && 0 < y <= |child| && child[y - 1].mid == yp
    requires Merging(dst[..], parent, child, gap, i0 - gap, x0, y)
    modifies dst
    ensures x + gap <= i <= i0 && x <= x0 && dst[x].mid <= yp && dst[0].mid == 0
    ensures Merging(dst[..], parent, child, gap, i - gap, x, y)
  {
    hide Union, Merging;
    i, x := i0, x0;
    while yp < dst[x].mid
      invariant x + gap <= i <= i0 && x <= x0 && dst[0].mid == 0 && Merging(dst[..], parent, child, gap, i - gap, x, y)
      decreases x
    {
      MergeParent(dst[..], parent, child, gap, i - gap, x, y);
      ghost var a := dst[..];
      dst[i] := dst[x];
      assert dst[..] == a[i := a[x]];
      i, x := i - 1, x - 1;
    }
  }

  /** The child's dirty list is counted and merged into the parent's. */
  method InheritDirty(dst: array<Id2>, src: array<Id2>)
    requires dst != src && IsList(dst[..]) && IsList(src[..]) && |Union(ListOf(dst[..]), ListOf(src[..]))| < dst.Length
    modifies dst
    ensures IsList(dst[..]) && ListOf(dst[..]) == Union(old(ListOf(dst[..])), ListOf(src[..]))
  {
    ghost var parent, child := ListOf(dst[..]), ListOf(src[..]);
    UnionAscends(parent, child);
    hide Ascending, Union;
    var x := dst[0].mid;
    dst[0] := Id2(0, dst[0].mptr);
    assert dst[1..x + 1] == parent;
    var len := CountUnion(dst, src, x, parent);
    var i, x' := MergeDirty(dst, src, x, len, parent);
    assert dst[1..len + 1] == Union(parent, child);
    dst[0] := Id2(len, dst[0].mptr);
    assert ListOf(dst[..]) == dst[1..len + 1];
  }

  // ---------------------------------------------------------------- the parent's spill list

  /** Spill list entry `p`, a page number shifted left, is for a dirty page of the child. */
  ghost predicate Doomed(child: seq<Id2>, p: nat) {
    exists k :: 0 <= k < |child| && 2 * child[k].mid == p
  }

  /** Live entries (odd ones are void already) for pages that the child has not dirtied, in order. */
  ghost function Survivors(spill: seq<nat>, child: seq<Id2>): seq<nat> {
    if spill == [] then [] else
      var n := |spill| - 1;
      Survivors(spill[..n], child) + if spill[n] % 2 == 0 && !Doomed(child, spill[n]) then [spill[n]] else []
  }

  function Evens(s: seq<nat>): seq<nat> {
    if s == [] then [] else
      var n := |s| - 1;
      Evens(s[..n]) + if s[n] % 2 == 0 then [s[n]] else []
  }

  ghost predicate IsMarked(a: seq<nat>, spill: seq<nat>, child: seq<Id2>) {
    |a| == |spill| && forall j :: 0 <= j < |a| ==> a[j] == if Doomed(child, spill[j]) then 1 else spill[j]
  }

  lemma {:induction false} EvensOfMarked(a: seq<nat>, spill: seq<nat>, child: seq<Id2>)
    requires IsMarked(a, spill, child)
    ensures Evens(a) == Survivors(spill, child)
    decreases a
  {
    if a != [] { EvensOfMarked(a[..|a| - 1], spill[..|a| - 1], child); }
  }

  lemma {:induction false} EvensConcat(a: seq<nat>, b: seq<nat>)
    ensures Evens(a + b) == Evens(a) + Evens(b)
    decreases b
  {
    if b == [] {
      assert a + b == a;
    } else {
      assert (a + b)[..|a| + |b| - 1] == a + b[..|b| - 1];
      EvensConcat(a, b[..|b| - 1]);
    }
  }

  lemma {:induction false} AllEvens(s: seq<nat>)
    requires forall j :: 0 <= j < |s| ==> s[j] % 2 == 0
    ensures Evens(s) == s
  {
    if s != [] { AllEvens(s[..|s| - 1]); }
  }

  /** What marking has done with the child's first `c` pages. */
  ghost predicate Marking(a: seq<nat>, spill: seq<nat>, child: seq<Id2>, c: nat, x: nat, y: nat) {
    && c <= |child| && x <= y <= |spill| && |a| > |spill|
    && (forall j {:trigger spill[j]} :: 0 <= j < |spill| ==>
          a[j + 1] == if Doomed(child[..c], spill[j]) then 1 else spill[j])
    && (forall j :: 0 <= j < x ==> c > 0 ==> spill[j] > 2 * child[c - 1].mid)
    && (forall j :: x <= j < |spill| ==> c > 0 && spill[j] <= 2 * child[c - 1].mid)
    && (forall j :: 0 <= j < y ==> !Doomed(child[..c], spill[j]))
    && (y < |spill| ==> Doomed(child[..c], spill[y]))
  }

  lemma DoomedStep(child: seq<Id2>, c: nat, p: nat)
    requires c < |child|
    ensures Doomed(child[..c + 1], p) <==> Doomed(child[..c], p) || 2 * child[c].mid == p
  {
    if Doomed(child[..c], p) {
      var k :| 0 <= k < c && 2 * child[..c][k].mid == p;
      assert 2 * child[..c + 1][k].mid == p;
    }
    if 2 * child[c].mid == p { assert 2 * child[..c + 1][c].mid == p; }
    if Doomed(child[..c + 1], p) {
      var k :| 0 <= k < c + 1 && 2 * child[..c + 1][k].mid == p;
      if k < c { assert 2 * child[..c][k].mid == p; }
    }
  }

  /** Entries above the page just looked at were not doomed before. */
  lemma NotYetDoomed(child: seq<Id2>, c: nat, p: nat)
    requires Ascending(child) && c <= |child| && (c > 0 ==> p > 2 * child[c - 1].mid)
    ensures !Doomed(child[..c], p)
  {}

  /** The next page of the child: `z` is where the scan for it stopped. */
  lemma MarkStep(a: seq<nat>, spill: seq<nat>, child: seq<Id2>, c: nat, x: nat, y: nat, z: nat)
    requires Marking(a, spill, child, c, x, y) && c < |child| && Ascending(child) && StrictlyDescending(spill) && z <= x
    requires (forall j :: z <= j < x ==> spill[j] < 2 * child[c].mid) && (z > 0 ==> spill[z - 1] >= 2 * child[c].mid)
    ensures if z > 0 && spill[z - 1] == 2 * child[c].mid then Marking(a[z := 1], spill, child, c + 1, z - 1, z - 1)
            else Marking(a, spill, child, c + 1, z, y)
  {
    forall p: nat ensures Doomed(child[..c + 1], p) <==> Doomed(child[..c], p) || 2 * child[c].mid == p {
      DoomedStep(child, c, p);
    }
    forall j | 0 <= j < x ensures !Doomed(child[..c], spill[j]) { NotYetDoomed(child, c, spill[j]); }
    hide Doomed;
    assert c > 0 ==> child[c - 1].mid < child[c].mid;
  }

  /** Below the position `x`, nothing has been marked. */
  lemma Unmarked(a: seq<nat>, spill: seq<nat>, child: seq<Id2>, c: nat, x: nat, y: nat)
    requires Marking(a, spill, child, c, x, y) && Ascending(child)
    ensures forall j {:trigger a[j]} :: 1 <= j <= x ==> a[j] == spill[j - 1]
    ensures x <= |spill| < |a|
  {
    forall j {:trigger a[j]} | 1 <= j <= x ensures a[j] == spill[j - 1] {
      assert a[(j - 1) + 1] == if Doomed(child[..c], spill[j - 1]) then 1 else spill[j - 1];
      NotYetDoomed(child, c, spill[j - 1]);
    }
  }

  /** From `x` down to the first entry that is not smaller than `pn`; entry 0 is a sentinel. */
  method ScanSpilled(pspill: array<nat>, x: nat, pn: nat, ghost spill: seq<nat>) returns (z: nat)
    requires x <= |spill| && x < pspill.Length && pspill[0] >= pn
    requires forall j {:trigger pspill[..][j]} :: 1 <= j <= x ==> pspill[..][j] == spill[j - 1]
    ensures z <= x && pspill[z] >= pn && (z > 0 ==> pspill[z] == spill[z - 1])
    ensures forall j :: z <= j < x ==> spill[j] < pn
  {
    z := x;
    while pn > pspill[z]
      invariant 0 <= z <= x
      invariant forall j :: z <= j < x ==> spill[j] < pn
      decreases z
    {
      assert pspill[..][z] == spill[z - 1];
      z := z - 1;
    }
    assert z > 0 ==> pspill[..][z] == spill[z - 1];
  }

  /** Mark the child's dirty pages as deleted in the parent's spill list. */
  method MarkSpilled(pspill: array<nat>, src: array<Id2>, n: nat, ghost spill: seq<nat>) returns (x: nat, y: nat)
    requires IsList(src[..]) && n < pspill.Length && spill == pspill[1..n + 1] && StrictlyDescending(spill)
    requires pspill[0] == MAX_ID && forall k :: 0 <= k < |ListOf(src[..])| ==> 2 * ListOf(src[..])[k].mid < MAX_ID
    requires (pspill as object) != src
    modifies pspill
    ensures y <= n && Marking(pspill[..], spill, ListOf(src[..]), |ListOf(src[..])|, x, y)
  {
    ghost var child := ListOf(src[..]);
    EntriesOf(src[..]);
    var i, len := 0, src[0].mid;
    x, y := n, n;
    assert child[..0] == [];
    assert forall j {:trigger spill[j]} :: 0 <= j < n ==> pspill[..][j + 1] == spill[j];
    assert Marking(pspill[..], spill, child, 0, x, y);
    hide Doomed, Marking, StrictlyDescending, Ascending;
    while i < len
      invariant 0 <= i <= len && x <= y <= n && pspill[0] == MAX_ID && Marking(pspill[..], spill, child, i, x, y)
    {
      Unmarked(pspill[..], spill, child, i, x, y);
      assert src[i + 1] == child[i];
      var pn := 2 * src[i + 1].mid;
      var z := ScanSpilled(pspill, x, pn, spill);
      MarkStep(pspill[..], spill, child, i, x, y, z);
      x := z;
      if pn == pspill[x] {
        ghost var a := pspill[..];
        pspill[x] := 1;
        assert pspill[..] == a[x := 1];
        x := x - 1;
        y := x;
      }
      i := i + 1;
    }
  }

  lemma EvensNone(a: seq<nat>, lo: nat)
    requires lo <= |a|
    ensures Evens(a[lo..lo]) == []
  {}

  lemma EvensNext(a: seq<nat>, lo: nat, x: nat)
    requires lo <= x < |a|
    ensures Evens(a[lo..x + 1]) == Evens(a[lo..x]) + if a[x] % 2 == 0 then [a[x]] else []
  {
    assert a[lo..x + 1][..x - lo] == a[lo..x];
  }

  /** Drop odd entries after the first `y0` of `n`, in place. */
  method Squash(pspill: array<nat>, y0: nat, n: nat) returns (y: nat)
    requires y0 <= n < pspill.Length
    modifies pspill
    ensures y <= n && pspill[1..y + 1] == old(pspill[1..y0 + 1]) + Evens(old(pspill[y0 + 1..n + 1]))
  {
    hide Evens;
    ghost var a := pspill[..];
    var x := y0;
    y := y0;
    EvensNone(a, y0 + 1);
    while x < n
      invariant y0 <= y <= x <= n
      invariant forall j :: x < j < pspill.Length ==> pspill[j] == a[j]
      invariant pspill[1..y + 1] == a[1..y0 + 1] + Evens(a[y0 + 1..x + 1])
    {
      x := x + 1;
      EvensNext(a, y0 + 1, x);
      ghost var before := pspill[1..y + 1];
      if pspill[x] % 2 == 0 {
        y := y + 1;
        pspill[y] := pspill[x];
        assert pspill[1..y] == before;
      }
    }
  }

  lemma MarkedTail(a: seq<nat>, spill: seq<nat>, child: seq<Id2>, x: nat, y: nat)
    requires Marking(a, spill, child, |child|, x, y)
    ensures |a| > |spill| >= y && a[1..y + 1] == spill[..y]
    ensures Evens(a[y + 1..|spill| + 1]) == Survivors(spill[y..], child)
    ensures Evens(spill[..y]) == Survivors(spill[..y], child)
  {
    hide Doomed, Evens, Survivors;
    assert child[..|child|] == child;
    var b := a[1..|spill| + 1];
    assert forall j {:trigger b[j]} :: 0 <= j < |spill| ==>
        b[j] == a[j + 1] == if Doomed(child, spill[j]) then 1 else spill[j];
    assert forall j :: 0 <= j < y ==> b[j] == spill[j];
    hide Doomed, Marking, Evens, Survivors;
    assert IsMarked(b[y..], spill[y..], child);
    assert IsMarked(b[..y], spill[..y], child);
    EvensOfMarked(b[y..], spill[y..], child);
    EvensOfMarked(b[..y], spill[..y], child);
    hide IsMarked;
    assert b[..y] == spill[..y];
    MarkedSlices(a, y, |spill|);
  }

  lemma MarkedSlices(a: seq<nat>, y: nat, n: nat)
    requires y <= n < |a|
    ensures a[1..n + 1][y..] == a[y + 1..n + 1] && a[1..n + 1][..y] == a[1..y + 1]
  {
    var l, r := a[1..n + 1][y..], a[y + 1..n + 1];
    forall j | 0 <= j < n - y ensures l[j] == r[j] { assert l[j] == a[y + 1 + j]; }
  }

  lemma {:induction false} SurvivorsConcat(s: seq<nat>, t: seq<nat>, child: seq<Id2>)
    ensures Survivors(s + t, child) == Survivors(s, child) + Survivors(t, child)
    decreases t
  {
    if t == [] {
      assert s + t == s;
    } else {
      assert (s + t)[..|s| + |t| - 1] == s + t[..|t| - 1];
      SurvivorsConcat(s, t[..|t| - 1], child);
    }
  }

  lemma {:induction false} SurvivorsAreEven(s: seq<nat>, child: seq<Id2>)
    ensures forall j :: 0 <= j < |Survivors(s, child)| ==> Survivors(s, child)[j] % 2 == 0
  {
    if s != [] { SurvivorsAreEven(s[..|s| - 1], child); }
  }

  /**
    The whole spill pass: the live entries left are those for pages the child has not dirtied, in
    order; with no void entries before, none other is left either.
   */
  method RemoveSpilled(pspill: array<nat>, src: array<Id2>)
    requires IsIdl(pspill) && StrictlyDescending(Entries(pspill)) && (pspill as object) != src
    requires IsList(src[..]) && forall k :: 0 <= k < |ListOf(src[..])| ==> 2 * ListOf(src[..])[k].mid < MAX_ID
    modifies pspill
    ensures IsIdl(pspill) && Evens(Entries(pspill)) == Survivors(old(Entries(pspill)), ListOf(src[..]))
    ensures (forall j :: 0 <= j < |old(Entries(pspill))| ==> old(Entries(pspill))[j] % 2 == 0) ==>
      Entries(pspill) == Survivors(old(Entries(pspill)), ListOf(src[..]))
  {
    ghost var spill, child := Entries(pspill), ListOf(src[..]);
    var n := pspill[0];
    if n == 0 { return; }
    pspill[0] := MAX_ID;
    assert pspill[1..n + 1] == spill;
    var x, y0 := MarkSpilled(pspill, src, n, spill);
    MarkedTail(pspill[..], spill, child, x, y0);
    hide Doomed, Marking, IsList, Survivors;
    assert pspill[1..y0 + 1] == pspill[..][1..y0 + 1] && pspill[y0 + 1..n + 1] == pspill[..][y0 + 1..n + 1];
    var y := Squash(pspill, y0, n);
    pspill[0] := y;
    assert Entries(pspill) == spill[..y0] + Survivors(spill[y0..], child);
    Squashed(spill, child, y0);
  }

  lemma Squashed(spill: seq<nat>, child: seq<Id2>, y: nat)
    requires y <= |spill| && Evens(spill[..y]) == Survivors(spill[..y], child)
    ensures var r := spill[..y] + Survivors(spill[y..], child);
      && Evens(r) == Survivors(spill, child)
      && ((forall j :: 0 <= j < |spill| ==> spill[j] % 2 == 0) ==> r == Survivors(spill, child))
  {
    var t := Survivors(spill[y..], child);
    assert spill == spill[..y] + spill[y..];
    SurvivorsConcat(spill[..y], spill[y..], child);
    EvensConcat(spill[..y], t);
    SurvivorsAreEven(spill[y..], child);
    AllEvens(t);
    if forall j :: 0 <= j < |spill| ==> spill[j] % 2 == 0 { AllEvens(spill[..y]); }
  }
}
