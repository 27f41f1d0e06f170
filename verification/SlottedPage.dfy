/**
  The bytes of a page: an array of node offsets that grows up from the page header, and nodes
  that grow down from the page's end.  The offsets are kept in an array of their own; they
  never reach the nodes, since `lower <= upper`.
 */
module SlottedPage {
  import opened SplitPoint
  import BTree

  type byte = x: int | 0 <= x < 256

  const F_BIGDATA: nat := 1

  // ---------------------------------------------------------------- nodes in bytes

  /**
    A node: mn_lo, mn_hi and mn_flags in six bytes, its key, and what is stored behind the key
    (leaf data, or the number of an overflow page; nothing in a branch).
   */
  datatype Node = Node(word: seq<byte>, key: seq<byte>, data: seq<byte>)

  function U16(m: seq<byte>, p: nat): nat
    requires p + 2 <= |m|
  {
    m[p] as int + 256 * (m[p + 1] as int)
  }

  /** The length of what is stored behind the key. */
  function DataLen(leaf: bool, word: seq<byte>): nat
    requires |word| == 6
  {
    if !leaf then 0
    else if U16(word, 4) % 2 == F_BIGDATA then 8
    else U16(word, 0) + 65536 * U16(word, 2)
  }

  predicate WellFormed(leaf: bool, n: Node) {
    |n.word| == 6 && |n.key| < 65536 && |n.data| == DataLen(leaf, n.word)
  }

  function Bytes(n: Node): (r: nat)
    ensures r % 2 == 0 && r >= BTree.NODESIZE + |n.key| + |n.data|
  {
    BTree.Even(BTree.NODESIZE + |n.key| + |n.data|)
  }

  /** The bytes of a node; a padding byte at the end may be anything. */
  predicate Image(w: seq<byte>, n: Node) {
    && |w| == Bytes(n) && |n.word| == 6
    && w[..6] == n.word
    && U16(w, 6) == |n.key|
    && w[8..8 + |n.key|] == n.key
    && w[8 + |n.key|..8 + |n.key| + |n.data|] == n.data
  }

  /** A node at offset `p`, complete within memory. */
  predicate Holds(m: seq<byte>, leaf: bool, p: nat, n: Node) {
    WellFormed(leaf, n) && p + Bytes(n) <= |m| && Image(m[p..p + Bytes(n)], n)
  }

  /** A place in memory holds at most one node. */
  lemma HoldsOne(m: seq<byte>, leaf: bool, p: nat, a: Node, b: Node)
    requires Holds(m, leaf, p, a) && Holds(m, leaf, p, b)
    ensures a == b
  {
    var v, w := m[p..p + Bytes(a)], m[p..p + Bytes(b)];
    assert forall j :: 0 <= j < 8 ==> v[j] == m[p + j] == w[j];
    assert a.word == b.word && |a.key| == |b.key|;
  }

  lemma SliceOfSlice<T>(s: seq<T>, a: nat, b: nat, c: nat, d: nat)
    requires a <= b <= |s| && c <= d <= b - a
    ensures s[a..b][c..d] == s[a + c..a + d]
  {
    var l, r := s[a..b][c..d], s[a + c..a + d];
    forall j | 0 <= j < d - c ensures l[j] == r[j] {
      assert l[j] == s[a..b][c + j];
    }
  }

  /** A node above `u` stays when the bytes from `u` on do. */
  lemma HoldsStill(m: seq<byte>, m': seq<byte>, leaf: bool, u: nat, p: nat, n: Node)
    requires Holds(m, leaf, p, n) && u <= p && |m| == |m'| && m'[u..] == m[u..]
    ensures Holds(m', leaf, p, n)
  {
    HoldsMoved(m, m', leaf, u, |m|, u, p, n);
  }

  /** A node between `u` and `v` moves with these bytes. */
  lemma HoldsMoved(m: seq<byte>, m': seq<byte>, leaf: bool, u: nat, v: nat, u': nat, p: nat, n: Node)
    requires Holds(m, leaf, p, n) && u <= p && p + Bytes(n) <= v <= |m|
    requires u' + (v - u) <= |m'| && m'[u'..u' + (v - u)] == m[u..v]
    ensures Holds(m', leaf, u' + (p - u), n)
  {
    SliceOfSlice(m, u, v, p - u, p - u + Bytes(n));
    SliceOfSlice(m', u', u' + (v - u), p - u, p - u + Bytes(n));
  }

  // ---------------------------------------------------------------- layout

  function Sizes(nodes: seq<Node>): (r: seq<nat>)
    ensures |r| == |nodes| && forall i :: 0 <= i < |r| ==> r[i] == Bytes(nodes[i])
  {
    seq(|nodes|, i requires 0 <= i < |nodes| => Bytes(nodes[i]))
  }

  /** Two nodes do not overlap. */
  predicate Apart(p: nat, a: Node, q: nat, b: Node) {
    p + Bytes(a) <= q || q + Bytes(b) <= p
  }

  /** Even offsets, not below `upper`, of nodes that do not overlap. */
  ghost predicate Spaced(ptrs: seq<nat>, nodes: seq<Node>, upper: nat) {
    && |ptrs| == |nodes|
    && (forall i :: 0 <= i < |ptrs| ==> ptrs[i] % 2 == 0 && upper <= ptrs[i])
    && (forall i, j :: 0 <= i < |ptrs| && 0 <= j < |ptrs| && i != j ==> Apart(ptrs[i], nodes[i], ptrs[j], nodes[j]))
  }

  ghost predicate AllHeld(m: seq<byte>, leaf: bool, ptrs: seq<nat>, nodes: seq<Node>) {
    |ptrs| == |nodes| && forall i :: 0 <= i < |ptrs| ==> Holds(m, leaf, ptrs[i], nodes[i])
  }

  /** Even-aligned, pairwise disjoint nodes that fill the page from `upper` to its end exactly. */
  ghost predicate Tiled(m: seq<byte>, leaf: bool, ptrs: seq<nat>, nodes: seq<Node>, upper: nat) {
    Spaced(ptrs, nodes, upper) && AllHeld(m, leaf, ptrs, nodes) && upper + Sum(Sizes(nodes)) == |m|
  }

  /** Offsets, memory and free space determine the nodes. */
  lemma TiledOne(m: seq<byte>, leaf: bool, ptrs: seq<nat>, a: seq<Node>, b: seq<Node>, upper: nat)
    requires Tiled(m, leaf, ptrs, a, upper) && Tiled(m, leaf, ptrs, b, upper)
    ensures a == b
  {
    forall i | 0 <= i < |a| ensures a[i] == b[i] { HoldsOne(m, leaf, ptrs[i], a[i], b[i]); }
  }

  lemma SizesInsert(nodes: seq<Node>, i: nat, n: Node)
    requires i <= |nodes|
    ensures Sum(Sizes(nodes[..i] + [n] + nodes[i..])) == Sum(Sizes(nodes)) + Bytes(n)
  {
    var s, w := Sizes(nodes), Sizes(nodes[..i] + [n] + nodes[i..]);
    SumCut(s, i);
    SumCut(w, i);
    SumAt(w, i);
    assert w[..i] == s[..i] && w[i + 1..] == s[i..];
  }

  lemma SizesRemove(nodes: seq<Node>, i: nat)
    requires i < |nodes|
    ensures Sum(Sizes(nodes)) == Sum(Sizes(nodes[..i] + nodes[i + 1..])) + Bytes(nodes[i])
  {
    SizesInsert(nodes[..i] + nodes[i + 1..], i, nodes[i]);
    assert (nodes[..i] + nodes[i + 1..])[..i] + [nodes[i]] + (nodes[..i] + nodes[i + 1..])[i..] == nodes;
  }

  // ---------------------------------------------------------------- insertion

  function Inserted<T>(s: seq<T>, i: nat, x: T): (r: seq<T>)
    requires i <= |s|
    ensures |r| == |s| + 1 && r[i] == x
    ensures forall j :: 0 <= j < |r| && j != i ==> r[j] == s[if j < i then j else j - 1]
  {
    s[..i] + [x] + s[i..]
  }

  function Removed<T>(s: seq<T>, i: nat): (r: seq<T>)
    requires i < |s|
    ensures |r| == |s| - 1
    ensures forall j :: 0 <= j < |r| ==> r[j] == s[if j < i then j else j + 1]
  {
    s[..i] + s[i + 1..]
  }

  lemma SpacedInsert(ptrs: seq<nat>, nodes: seq<Node>, upper: nat, i: nat, p: nat, n: Node)
    requires Spaced(ptrs, nodes, upper) && i <= |ptrs| && p + Bytes(n) == upper && p % 2 == 0
    ensures Spaced(Inserted(ptrs, i, p), Inserted(nodes, i, n), p)
  {
    var ptrs', nodes' := Inserted(ptrs, i, p), Inserted(nodes, i, n);
    hide Inserted;
    forall j, k | 0 <= j < |ptrs'| && 0 <= k < |ptrs'| && j != k
      ensures Apart(ptrs'[j], nodes'[j], ptrs'[k], nodes'[k]) {
      if j != i && k != i {
        var j0, k0 := if j < i then j else j - 1, if k < i then k else k - 1;
        assert Apart(ptrs[j0], nodes[j0], ptrs[k0], nodes[k0]);
      }
    }
  }

  lemma TiledInsert(
      m: seq<byte>, m': seq<byte>, leaf: bool, ptrs: seq<nat>, nodes: seq<Node>, upper: nat, i: nat, p: nat, n: Node)
    requires Tiled(m, leaf, ptrs, nodes, upper) && i <= |ptrs|
    requires p + Bytes(n) == upper && p % 2 == 0 && |m'| == |m| && m'[upper..] == m[upper..] && Holds(m', leaf, p, n)
    ensures Tiled(m', leaf, Inserted(ptrs, i, p), Inserted(nodes, i, n), p)
  {
    SizesInsert(nodes, i, n);
    SpacedInsert(ptrs, nodes, upper, i, p, n);
    var ptrs', nodes' := Inserted(ptrs, i, p), Inserted(nodes, i, n);
    hide Inserted, Sum, Holds;
    forall j | 0 <= j < |ptrs'| ensures Holds(m', leaf, ptrs'[j], nodes'[j]) {
      if j != i {
        var k := if j < i then j else j - 1;
        assert Holds(m, leaf, ptrs[k], nodes[k]);
        HoldsStill(m, m', leaf, upper, ptrs[k], nodes[k]);
      }
    }
  }

  // ---------------------------------------------------------------- removal

  /** Offsets after a node of `sz` bytes at `ptr` is squeezed out: those below it move up. */
  function Up(p: nat, ptr: nat, sz: nat): nat {
    if p < ptr then p + sz else p
  }

  lemma SpacedRemove(ptrs: seq<nat>, nodes: seq<Node>, upper: nat, x: nat, ptrs': seq<nat>)
    requires Spaced(ptrs, nodes, upper) && x < |ptrs| && |ptrs'| == |ptrs| - 1
    requires forall j :: 0 <= j < |ptrs'| ==> ptrs'[j] == Up(Removed(ptrs, x)[j], ptrs[x], Bytes(nodes[x]))
    ensures Spaced(ptrs', Removed(nodes, x), upper + Bytes(nodes[x]))
  {
    var nodes', sz := Removed(nodes, x), Bytes(nodes[x]);
    forall j | 0 <= j < |ptrs'| ensures ptrs'[j] % 2 == 0 && upper + sz <= ptrs'[j] {
      var k := if j < x then j else j + 1;
      assert Apart(ptrs[k], nodes[k], ptrs[x], nodes[x]);
    }
    forall j, k | 0 <= j < |ptrs'| && 0 <= k < |ptrs'| && j != k
      ensures Apart(ptrs'[j], nodes'[j], ptrs'[k], nodes'[k]) {
      var j0, k0 := if j < x then j else j + 1, if k < x then k else k + 1;
      assert Apart(ptrs[j0], nodes[j0], ptrs[k0], nodes[k0]);
      assert Apart(ptrs[j0], nodes[j0], ptrs[x], nodes[x]) && Apart(ptrs[k0], nodes[k0], ptrs[x], nodes[x]);
    }
  }

  /** The bytes between `upper` and `ptr` moved up by `sz`; those behind the removed node stayed. */
  ghost predicate Squeezed(m: seq<byte>, m': seq<byte>, upper: nat, ptr: nat, sz: nat) {
    && |m'| == |m| && upper <= ptr && ptr + sz <= |m|
    && m'[upper + sz..ptr + sz] == m[upper..ptr] && m'[ptr + sz..] == m[ptr + sz..]
  }

  lemma HeldRemove(
      m: seq<byte>, m': seq<byte>, leaf: bool, ptrs: seq<nat>, nodes: seq<Node>, upper: nat, x: nat, ptrs': seq<nat>)
    requires Spaced(ptrs, nodes, upper) && AllHeld(m, leaf, ptrs, nodes) && x < |ptrs| && |ptrs'| == |ptrs| - 1
    requires forall j :: 0 <= j < |ptrs'| ==> ptrs'[j] == Up(Removed(ptrs, x)[j], ptrs[x], Bytes(nodes[x]))
    requires Squeezed(m, m', upper, ptrs[x], Bytes(nodes[x]))
    ensures AllHeld(m', leaf, ptrs', Removed(nodes, x))
  {
    var ptr, sz, nodes' := ptrs[x], Bytes(nodes[x]), Removed(nodes, x);
    hide Holds, Removed, Squeezed, Up, Bytes;
    forall j | 0 <= j < |ptrs'| ensures Holds(m', leaf, ptrs'[j], nodes'[j]) {
      var k := if j < x then j else j + 1;
      assert Apart(ptrs[k], nodes[k], ptr, nodes[x]) && Holds(m, leaf, ptrs[k], nodes[k]);
      HoldsSqueezed(m, m', leaf, upper, ptr, nodes[x], ptrs[k], nodes[k]);
    }
  }

  lemma HoldsSqueezed(m: seq<byte>, m': seq<byte>, leaf: bool, upper: nat, ptr: nat, x: Node, p: nat, n: Node)
    requires Holds(m, leaf, p, n) && upper <= p && Apart(p, n, ptr, x) && Squeezed(m, m', upper, ptr, Bytes(x))
    ensures Holds(m', leaf, Up(p, ptr, Bytes(x)), n)
  {
    hide Holds;
    if p < ptr {
      HoldsMoved(m, m', leaf, upper, ptr, upper + Bytes(x), p, n);
    } else {
      HoldsStill(m, m', leaf, ptr + Bytes(x), p, n);
    }
  }

  lemma TiledRemove(
      m: seq<byte>, m': seq<byte>, leaf: bool, ptrs: seq<nat>, nodes: seq<Node>, upper: nat, x: nat, ptrs': seq<nat>)
    requires Tiled(m, leaf, ptrs, nodes, upper) && x < |ptrs| && |ptrs'| == |ptrs| - 1
    requires forall j :: 0 <= j < |ptrs'| ==> ptrs'[j] == Up(Removed(ptrs, x)[j], ptrs[x], Bytes(nodes[x]))
    requires Squeezed(m, m', upper, ptrs[x], Bytes(nodes[x]))
    ensures Tiled(m', leaf, ptrs', Removed(nodes, x), upper + Bytes(nodes[x]))
  {
    SizesRemove(nodes, x);
    SpacedRemove(ptrs, nodes, upper, x, ptrs');
    HeldRemove(m, m', leaf, ptrs, nodes, upper, x, ptrs');
  }

  // ---------------------------------------------------------------- key replacement in a branch

  /** Offsets after the key at `ptr` grew by `delta` bytes: it and those below it move down. */
  function Down(p: int, ptr: int, delta: int): int {
    if p <= ptr then p - delta else p
  }

  /** The bytes between `upper` and `ptr` moved by `-delta`; those behind the changed node stayed. */
  ghost predicate Opened(m: seq<byte>, m': seq<byte>, upper: nat, ptr: nat, sz: nat, delta: int) {
    && |m'| == |m| && upper <= ptr && ptr + sz <= |m| && 0 <= upper - delta && ptr - delta <= |m|
    && m'[upper - delta..ptr - delta] == m[upper..ptr] && m'[ptr + sz..] == m[ptr + sz..]
  }

  lemma SpacedRekey(ptrs: seq<nat>, nodes: seq<Node>, upper: nat, x: nat, n: Node, delta: int, ptrs': seq<nat>)
    requires Spaced(ptrs, nodes, upper) && x < |ptrs| == |ptrs'|
    requires delta == Bytes(n) - Bytes(nodes[x]) && 0 <= upper - delta
    requires forall j :: 0 <= j < |ptrs'| ==> ptrs'[j] == Down(ptrs[j], ptrs[x], delta)
    ensures Spaced(ptrs', nodes[x := n], upper - delta)
  {
    forall j | 0 <= j < |ptrs'| ensures ptrs'[j] % 2 == 0 && upper - delta <= ptrs'[j] {
      if j != x { assert Apart(ptrs[j], nodes[j], ptrs[x], nodes[x]); }
    }
    forall j, k | 0 <= j < |ptrs'| && 0 <= k < |ptrs'| && j != k
      ensures Apart(ptrs'[j], nodes[x := n][j], ptrs'[k], nodes[x := n][k]) {
      assert Apart(ptrs[j], nodes[j], ptrs[k], nodes[k]);
      if j != x { assert Apart(ptrs[j], nodes[j], ptrs[x], nodes[x]); }
      if k != x { assert Apart(ptrs[k], nodes[k], ptrs[x], nodes[x]); }
    }
  }

  lemma HeldRekey(
      m: seq<byte>, m': seq<byte>, leaf: bool, ptrs: seq<nat>, nodes: seq<Node>, upper: nat, x: nat, n: Node,
      delta: int, ptrs': seq<nat>)
    requires Spaced(ptrs, nodes, upper) && AllHeld(m, leaf, ptrs, nodes) && x < |ptrs| == |ptrs'|
    requires delta == Bytes(n) - Bytes(nodes[x])
    requires forall j :: 0 <= j < |ptrs'| ==> ptrs'[j] == Down(ptrs[j], ptrs[x], delta)
    requires Opened(m, m', upper, ptrs[x], Bytes(nodes[x]), delta) && Holds(m', leaf, ptrs'[x], n)
    ensures AllHeld(m', leaf, ptrs', nodes[x := n])
  {
    hide Holds, Opened, Bytes, Down;
    forall j | 0 <= j < |ptrs'| ensures Holds(m', leaf, ptrs'[j], nodes[x := n][j]) {
      if j != x {
        assert Apart(ptrs[j], nodes[j], ptrs[x], nodes[x]) && Holds(m, leaf, ptrs[j], nodes[j]);
        hide Apart;
        HoldsOpened(m, m', leaf, upper, ptrs[x], nodes[x], delta, ptrs[j], nodes[j]);
      }
    }
  }

  lemma HoldsOpened(m: seq<byte>, m': seq<byte>, leaf: bool, upper: nat, ptr: nat, x: Node, delta: int, p: nat, n: Node)
    requires Holds(m, leaf, p, n) && upper <= p && Apart(p, n, ptr, x) && Opened(m, m', upper, ptr, Bytes(x), delta)
    ensures Down(p, ptr, delta) >= 0 && Holds(m', leaf, Down(p, ptr, delta), n)
  {
    hide Holds;
    if p < ptr {
      HoldsMoved(m, m', leaf, upper, ptr, upper - delta, p, n);
    } else {
      HoldsStill(m, m', leaf, ptr + Bytes(x), p, n);
    }
  }

  lemma TiledRekey(
      m: seq<byte>, m': seq<byte>, leaf: bool, ptrs: seq<nat>, nodes: seq<Node>, upper: nat, x: nat, n: Node,
      delta: int, ptrs': seq<nat>)
    requires Tiled(m, leaf, ptrs, nodes, upper) && x < |ptrs| == |ptrs'|
    requires delta == Bytes(n) - Bytes(nodes[x])
    requires forall j :: 0 <= j < |ptrs'| ==> ptrs'[j] == Down(ptrs[j], ptrs[x], delta)
    requires Opened(m, m', upper, ptrs[x], Bytes(nodes[x]), delta) && Holds(m', leaf, ptrs'[x], n)
    ensures Tiled(m', leaf, ptrs', nodes[x := n], upper - delta)
  {
    SpacedRekey(ptrs, nodes, upper, x, n, delta, ptrs');
    HeldRekey(m, m', leaf, ptrs, nodes, upper, x, n, delta, ptrs');
    SizesRemove(nodes, x);
    SizesRemove(nodes[x := n], x);
    assert nodes[x := n][..x] + nodes[x := n][x + 1..] == nodes[..x] + nodes[x + 1..];
  }

  // ---------------------------------------------------------------- encoding

  function Le16(n: nat): (r: seq<byte>)
    requires n < 65536
    ensures |r| == 2 && U16(r, 0) == n
  {
    [n % 256, n / 256]
  }

  function Encode(n: Node): (r: seq<byte>)
    requires |n.word| == 6 && |n.key| < 65536
    ensures |r| == 8 + |n.key| + |n.data|
  {
    n.word + Le16(|n.key|) + n.key + n.data
  }

  lemma EncodeImage(w: seq<byte>, n: Node)
    requires |n.word| == 6 && |n.key| < 65536 && |w| == Bytes(n) && w[..8 + |n.key| + |n.data|] == Encode(n)
    ensures Image(w, n)
  {
    var e, k, d := Encode(n), |n.key|, |n.data|;
    var a := n.word + Le16(k);
    assert e == a + n.key + n.data;
    assert w[..6] == e[..6] == n.word;
    assert w[6] == e[6] == Le16(k)[0] && w[7] == e[7] == Le16(k)[1];
    assert w[8..8 + k] == e[8..8 + k] == n.key;
    assert w[8 + k..8 + k + d] == e[8 + k..8 + k + d] == n.data;
  }

  // ---------------------------------------------------------------- the page

  /** A page whose header, offsets and bytes fit together. */
  ghost predicate PageOk(m: seq<byte>, leaf: bool, ptrs: seq<nat>, lower: nat, upper: nat, nodes: seq<Node>) {
    && lower == BTree.PAGEHDRSZ + 2 * |nodes| && lower <= upper <= |m| && upper % 2 == 0
    && |m| == BTree.PAGEHDRSZ + 2 * |ptrs|
    && Tiled(m, leaf, ptrs[..|nodes|], nodes, upper)
  }

  lemma AddOk(
      m: seq<byte>, m': seq<byte>, leaf: bool, ptrs: seq<nat>, ptrs': seq<nat>, lower: nat, upper: nat,
      nodes: seq<Node>, i: nat, n: Node)
    requires PageOk(m, leaf, ptrs, lower, upper, nodes) && i <= |nodes| && Bytes(n) + 2 <= upper - lower &&
      |nodes| < |ptrs| == |ptrs'|
    requires ptrs'[..|nodes| + 1] == Inserted(ptrs[..|nodes|], i, upper - Bytes(n))
    requires |m'| == |m| && m'[upper..] == m[upper..] && Holds(m', leaf, upper - Bytes(n), n)
    ensures PageOk(m', leaf, ptrs', lower + 2, upper - Bytes(n), Inserted(nodes, i, n))
  {
    assert |Inserted(nodes, i, n)| == |nodes| + 1;
    hide Tiled, Holds;
    TiledInsert(m, m', leaf, ptrs[..|nodes|], nodes, upper, i, upper - Bytes(n), n);
  }

  /** Pointer `x` of `n` dropped, and those to nodes below it adjusted. */
  ghost predicate Closed(ptrs: seq<nat>, ptrs': seq<nat>, x: nat, n: nat, sz: nat) {
    && x < n <= |ptrs| == |ptrs'|
    && forall j :: 0 <= j < n - 1 ==> ptrs'[j] == Up(ptrs[if j < x then j else j + 1], ptrs[x], sz)
  }

  /** The pointers of `n` nodes after key `x` grew by `delta`. */
  ghost predicate Lowered(ptrs: seq<nat>, ptrs': seq<nat>, x: nat, n: nat, delta: int) {
    && x < n <= |ptrs| == |ptrs'|
    && forall j :: 0 <= j < n ==> ptrs'[j] == Down(ptrs[j], ptrs[x], delta)
  }

  lemma DelOk(
      m: seq<byte>, m': seq<byte>, leaf: bool, ptrs: seq<nat>, ptrs': seq<nat>, lower: nat, upper: nat,
      nodes: seq<Node>, x: nat)
    requires PageOk(m, leaf, ptrs, lower, upper, nodes) && x < |nodes| <= |ptrs| && lower >= 2
    requires Closed(ptrs, ptrs', x, |nodes|, Bytes(nodes[x]))
    requires Squeezed(m, m', upper, ptrs[x], Bytes(nodes[x]))
    ensures PageOk(m', leaf, ptrs', lower - 2, upper + Bytes(nodes[x]), Removed(nodes, x))
  {
    hide Tiled, Bytes;
    TiledRemove(m, m', leaf, ptrs[..|nodes|], nodes, upper, x, ptrs'[..|nodes| - 1]);
  }

  lemma RekeyOk(
      m: seq<byte>, m': seq<byte>, leaf: bool, ptrs: seq<nat>, ptrs': seq<nat>, lower: nat, upper: nat,
      nodes: seq<Node>, x: nat, n: Node)
    requires PageOk(m, leaf, ptrs, lower, upper, nodes) && x < |nodes|
    requires Lowered(ptrs, ptrs', x, |nodes|, Bytes(n) - Bytes(nodes[x]))
    requires Bytes(n) - Bytes(nodes[x]) <= upper - lower && Bytes(n) - Bytes(nodes[x]) <= ptrs[x]
    requires Opened(m, m', upper, ptrs[x], Bytes(nodes[x]), Bytes(n) - Bytes(nodes[x]))
    requires Holds(m', leaf, ptrs[x] - (Bytes(n) - Bytes(nodes[x])), n)
    ensures PageOk(m', leaf, ptrs', lower, upper - (Bytes(n) - Bytes(nodes[x])), nodes[x := n])
  {
    hide Tiled, Holds, Bytes;
    TiledRekey(m, m', leaf, ptrs[..|nodes|], nodes, upper, x, n, Bytes(n) - Bytes(nodes[x]), ptrs'[..|nodes|]);
  }

  /** The size of the node at `p`, read from its header. */
  function SizeAt(m: seq<byte>, leaf: bool, p: nat): nat
    requires p + BTree.NODESIZE <= |m|
  {
    BTree.Even(BTree.NODESIZE + U16(m, p + 6) + DataLen(leaf, m[p..p + 6]))
  }

  lemma SizeAtOk(m: seq<byte>, leaf: bool, p: nat, n: Node)
    requires Holds(m, leaf, p, n)
    ensures p + BTree.NODESIZE <= p + Bytes(n) <= |m| && SizeAt(m, leaf, p) == Bytes(n) && U16(m, p + 6) == |n.key|
  {
    var w := m[p..p + Bytes(n)];
    assert w[..6] == m[p..p + 6] && w[6] == m[p + 6] && w[7] == m[p + 7];
  }

  lemma PageShape(m: seq<byte>, leaf: bool, ptrs: seq<nat>, lower: nat, upper: nat, nodes: seq<Node>)
    requires PageOk(m, leaf, ptrs, lower, upper, nodes)
    ensures lower == BTree.PAGEHDRSZ + 2 * |nodes| && lower <= upper <= |m| == BTree.PAGEHDRSZ + 2 * |ptrs|
  {}

  /** Where a page's node is. */
  lemma NodeThere(m: seq<byte>, leaf: bool, ptrs: seq<nat>, lower: nat, upper: nat, nodes: seq<Node>, x: nat)
    requires PageOk(m, leaf, ptrs, lower, upper, nodes) && x < |nodes|
    ensures x < |ptrs| && upper <= ptrs[x] && Holds(m, leaf, ptrs[x], nodes[x])
  {
    assert ptrs[..|nodes|][x] == ptrs[x];
  }

  /** memmove of `n` bytes, then memcpy of `bs`. */
  ghost predicate Moved(m: seq<byte>, m': seq<byte>, from: nat, to: nat, n: nat) {
    from + n <= |m| && to + n <= |m| && m' == m[..to] + m[from..from + n] + m[to + n..]
  }

  ghost predicate Copied(m: seq<byte>, m': seq<byte>, p: nat, bs: seq<byte>) {
    p + |bs| <= |m| && m' == m[..p] + bs + m[p + |bs|..]
  }

  lemma MovedParts(m: seq<byte>, m': seq<byte>, from: nat, to: nat, n: nat, i: nat, j: nat, p: nat)
    requires Moved(m, m', from, to, n) && i <= j <= n && to + n <= p <= |m|
    ensures |m'| == |m| && m'[to + i..to + j] == m[from + i..from + j] && m'[p..] == m[p..]
  {
    var l, r := m'[to + i..to + j], m[from + i..from + j];
    forall k | 0 <= k < j - i ensures l[k] == r[k] { assert m'[to + (i + k)] == m[from + (i + k)]; }
  }

  lemma CopiedParts(m: seq<byte>, m': seq<byte>, at: nat, bs: seq<byte>, i: nat, j: nat, p: nat)
    requires Copied(m, m', at, bs) && i <= j <= at && at + |bs| <= p <= |m|
    ensures |m'| == |m| && m'[i..j] == m[i..j] && m'[p..] == m[p..] && m'[at..at + |bs|] == bs
  {}

  /** Everything below a node moves by `delta`, its header included, and `bs` is written into it. */
  lemma RekeyMoves(m: seq<byte>, m1: seq<byte>, m2: seq<byte>, upper: nat, ptr: nat, sz: nat, delta: int, bs: seq<byte>)
    requires upper <= ptr && delta <= upper && 8 <= |bs| + 6 && ptr - delta + 6 + |bs| <= ptr + sz <= |m|
    requires Moved(m, m1, upper, upper - delta, ptr - upper + BTree.NODESIZE) && Copied(m1, m2, ptr - delta + 6, bs)
    ensures Opened(m, m2, upper, ptr, sz, delta)
    ensures m2[ptr - delta..ptr - delta + 6] == m[ptr..ptr + 6]
    ensures m2[ptr - delta + 6..ptr - delta + 6 + |bs|] == bs
  {
    var q, u, n := ptr - delta, upper - delta, ptr - upper;
    MovedParts(m, m1, upper, u, n + BTree.NODESIZE, 0, n, ptr + sz);
    MovedParts(m, m1, upper, u, n + BTree.NODESIZE, n, n + 6, ptr + sz);
    CopiedParts(m1, m2, q + 6, bs, u, q, ptr + sz);
    CopiedParts(m1, m2, q + 6, bs, q, q + 6, ptr + sz);
    hide Moved, Copied;
  }

  /** A branch node with another key. */
  lemma RekeyHolds(m: seq<byte>, m2: seq<byte>, ptr: nat, node: Node, q: nat, key: seq<byte>)
    requires Holds(m, false, ptr, node) && |key| < 65536 && q + 8 + BTree.Even(|key|) <= |m2|
    requires m2[q..q + 6] == m[ptr..ptr + 6] && m2[q + 6..q + 8 + |key|] == Le16(|key|) + key
    ensures Holds(m2, false, q, node.(key := key))
  {
    RekeyEnds(m, ptr, node, key);
    var end := q + 8 + BTree.Even(|key|);
    SliceOfSlice(m2, q, end, 0, 6);
    SliceOfSlice(m2, q, end, 6, 8 + |key|);
    SliceOfSlice(m, ptr, ptr + Bytes(node), 0, 6);
    hide BTree.Even;
    RekeyImage(m[ptr..ptr + Bytes(node)], m2[q..end], node, key);
  }

  lemma RekeyEnds(m: seq<byte>, ptr: nat, node: Node, key: seq<byte>)
    requires Holds(m, false, ptr, node)
    ensures node.data == [] && Bytes(node.(key := key)) == 8 + BTree.Even(|key|) &&
      Bytes(node) == 8 + BTree.Even(|node.key|)
    ensures ptr + Bytes(node) <= |m|
  {}

  lemma RekeyImage(v: seq<byte>, w: seq<byte>, node: Node, key: seq<byte>)
    requires Image(v, node) && WellFormed(false, node) && |key| < 65536 && |w| == Bytes(node.(key := key))
    requires w[0..6] == v[0..6] && w[6..8 + |key|] == Le16(|key|) + key
    ensures Image(w, node.(key := key))
  {
    var b := Le16(|key|) + key;
    assert w[6] == b[0] && w[7] == b[1];
    SliceOfSlice(w, 6, 8 + |key|, 2, 2 + |key|);
  }

  class Page {
    const leaf: bool
    const ptrs: array<nat>  // mp_ptrs
    const mem: array<byte>
    var lower: nat          // mp_lower
    var upper: nat          // mp_upper
    ghost var nodes: seq<Node>

    function NumKeys(): nat
      reads this
    {
      if lower < BTree.PAGEHDRSZ then 0 else (lower - BTree.PAGEHDRSZ) / 2
    }

    ghost predicate Valid()
      reads this, ptrs, mem
    {
      PageOk(mem[..], leaf, ptrs[..], lower, upper, nodes)
    }

    /** mdb_page_new: an empty page. */
    constructor (leaf: bool, psize: nat)
      requires psize >= BTree.PAGEHDRSZ && psize % 2 == 0
      ensures Valid() && nodes == [] && this.leaf == leaf && mem.Length == psize && fresh(ptrs) && fresh(mem)
    {
      this.leaf := leaf;
      ptrs := new nat[(psize - BTree.PAGEHDRSZ) / 2](_ => 0);
      mem := new byte[psize](_ => 0);
      lower, upper := BTree.PAGEHDRSZ, psize;
      nodes := [];
    }

    /** memcpy into the page. */
    method Write(p: nat, bs: seq<byte>)
      requires p + |bs| <= mem.Length
      modifies mem
      ensures Copied(old(mem[..]), mem[..], p, bs)
    {
      forall j | p <= j < p + |bs| { mem[j] := bs[j - p]; }
    }

    /** memmove within the page: source and destination may overlap. */
    method Move(from: nat, to: nat, n: nat)
      requires from + n <= mem.Length && to + n <= mem.Length
      modifies mem
      ensures Moved(old(mem[..]), mem[..], from, to, n)
    {
      forall j | to <= j < to + n { mem[j] := mem[j - to + from]; }
    }

    /** mdb_node_add: insert a node at index `indx`, unless the page is full. */
    method NodeAdd(indx: nat, n: Node) returns (ok: bool)
      requires Valid() && indx <= NumKeys() && WellFormed(leaf, n)
      modifies this, ptrs, mem
      ensures Valid()
      ensures ok <==> Bytes(n) + 2 <= old(upper - lower)
      ensures ok ==> nodes == Inserted(old(nodes), indx, n)
      ensures ok ==> upper == old(upper) - Bytes(n) && lower == old(lower) + 2 && ptrs[indx] == upper
      ensures ok ==> forall i :: old(NumKeys()) < i < ptrs.Length ==> ptrs[i] == old(ptrs[i])
      ensures !ok ==> unchanged(this) && unchanged(ptrs) && unchanged(mem)
    {
      hide PageOk, WellFormed, Holds, Inserted, Bytes;
      PageShape(mem[..], leaf, ptrs[..], lower, upper, nodes);
      if Bytes(n) > upper - lower - 2 { return false; }
      var ofs, num := upper - Bytes(n), NumKeys();
      ghost var m, ps := mem[..], ptrs[..];
      OpenSlot(indx, num, ofs);
      WriteNode(ofs, n);
      AddOk(m, mem[..], leaf, ps, ptrs[..], lower, upper, nodes, indx, n);
      nodes := Inserted(nodes, indx, n);
      upper, lower := ofs, lower + 2;
      return true;
    }

    /** Move higher pointers up one slot, and fill the gap. */
    method OpenSlot(indx: nat, num: nat, ofs: nat)
      requires indx <= num < ptrs.Length
      modifies ptrs
      ensures ptrs[..num + 1] == Inserted(old(ptrs[..num]), indx, ofs)
      ensures forall i :: num < i < ptrs.Length ==> ptrs[i] == old(ptrs[i])
    {
      var i := num;
      while i > indx
        invariant indx <= i <= num
        invariant forall j :: 0 <= j < ptrs.Length && (j < i || j > num) ==> ptrs[j] == old(ptrs[j])
        invariant forall j :: i < j <= num ==> ptrs[j] == old(ptrs[j - 1])
      {
        ptrs[i] := ptrs[i - 1];
        i := i - 1;
      }
      ptrs[indx] := ofs;
    }

    /** Write a node at `ofs`. */
    method WriteNode(ofs: nat, n: Node)
      requires WellFormed(leaf, n) && ofs + Bytes(n) <= mem.Length
      modifies mem
      ensures Holds(mem[..], leaf, ofs, n) && mem[..][ofs + Bytes(n)..] == old(mem[..])[ofs + Bytes(n)..]
    {
      var bs := Encode(n);
      Write(ofs, bs);
      ghost var w := mem[..][ofs..ofs + Bytes(n)];
      assert w[..|bs|] == bs;
      EncodeImage(w, n);
      hide Image, Encode;
    }

    /** Drop pointer `indx`, and adjust those to nodes below the dropped one. */
    method CloseSlot(indx: nat, num: nat, sz: nat)
      requires indx < num <= ptrs.Length
      modifies ptrs
      ensures Closed(old(ptrs[..]), ptrs[..], indx, num, sz)
    {
      var ptr, i, j := ptrs[indx], 0, 0;
      while i < num
        invariant 0 <= i <= num && j == if i <= indx then i else i - 1
        invariant forall k {:trigger ptrs[k]} :: i <= k < ptrs.Length ==> ptrs[k] == old(ptrs[k])
        invariant forall k {:trigger ptrs[k]} :: 0 <= k < j && k < indx ==> ptrs[k] == Up(old(ptrs[k]), ptr, sz)
        invariant forall k {:trigger ptrs[k]} :: indx <= k < j ==> ptrs[k] == Up(old(ptrs[k + 1]), ptr, sz)
      {
        if i != indx {
          ptrs[j] := if ptrs[i] < ptr then ptrs[i] + sz else ptrs[i];
          j := j + 1;
        }
        i := i + 1;
      }
    }

    /** Move the bytes before a node of `sz` bytes at `ptr` over it. */
    method SqueezeOut(from: nat, ptr: nat, sz: nat)
      requires from <= ptr && ptr + sz <= mem.Length
      modifies mem
      ensures Squeezed(old(mem[..]), mem[..], from, ptr, sz)
    {
      Move(from, from + sz, ptr - from);
    }

    /** mdb_node_del: remove the node at index `indx`. */
    method NodeDel(indx: nat)
      requires Valid() && indx < |nodes|
      modifies this, ptrs, mem
      ensures Valid() && nodes == Removed(old(nodes), indx)
      ensures upper == old(upper) + Bytes(old(nodes)[indx]) && lower == old(lower) - 2
    {
      hide PageOk, Holds, Removed, Bytes, Squeezed, Closed, SizeAt;
      ghost var m, ps := mem[..], ptrs[..];
      PageShape(m, leaf, ps, lower, upper, nodes);
      NodeThere(m, leaf, ps, lower, upper, nodes, indx);
      SizeAtOk(m, leaf, ptrs[indx], nodes[indx]);
      var ptr := ptrs[indx];
      var sz := SizeAt(mem[..], leaf, ptr);
      CloseSlot(indx, NumKeys(), sz);
      SqueezeOut(upper, ptr, sz);
      DelOk(m, mem[..], leaf, ps, ptrs[..], lower, upper, nodes, indx);
      nodes := Removed(nodes, indx);
      lower, upper := lower - 2, upper + sz;
    }

    /** Pointers to the node at `indx` and to those below it go down by `delta`. */
    method LowerPointers(indx: nat, num: nat, delta: int)
      requires indx < num <= ptrs.Length && forall j :: 0 <= j < num ==> ptrs[j] >= delta
      modifies ptrs
      ensures Lowered(old(ptrs[..]), ptrs[..], indx, num, delta)
    {
      var ptr, i := ptrs[indx], 0;
      while i < num
        invariant 0 <= i <= num
        invariant forall k :: i <= k < ptrs.Length ==> ptrs[k] == old(ptrs[k])
        invariant forall k :: 0 <= k < i ==> ptrs[k] == Down(old(ptrs[k]), ptr, delta)
      {
        if ptrs[i] <= ptr { ptrs[i] := ptrs[i] - delta; }
        i := i + 1;
      }
    }

    /** Make room before the node at `ptr` and give it another key. */
    method Rekey(from: nat, ptr: nat, delta: int, key: seq<byte>, ghost node: Node)
      requires Holds(mem[..], false, ptr, node) && |key| < 65536 && from <= ptr && delta <= from
      requires delta == BTree.Even(|key|) - BTree.Even(|node.key|)
      modifies mem
      ensures Bytes(node.(key := key)) - Bytes(node) == delta
      ensures Opened(old(mem[..]), mem[..], from, ptr, Bytes(node), delta) &&
        Holds(mem[..], false, ptr - delta, node.(key := key))
    {
      hide Holds, Opened, Bytes, BTree.Even;
      ghost var m := mem[..];
      RekeyEnds(m, ptr, node, key);
      Shift(from, ptr, delta, Le16(|key|) + key, Bytes(node));
      RekeyHolds(m, mem[..], ptr, node, ptr - delta, key);
    }

    /** Move everything below a node of `sz` bytes and its header by `delta`, and write `bs` into it. */
    method Shift(from: nat, ptr: nat, delta: int, bs: seq<byte>, ghost sz: nat)
      requires from <= ptr && delta <= from && 2 <= |bs| && BTree.NODESIZE <= sz &&
        ptr - delta + 6 + |bs| <= ptr + sz <= mem.Length
      modifies mem
      ensures Opened(old(mem[..]), mem[..], from, ptr, sz, delta)
      ensures mem[..][ptr - delta..ptr - delta + 6] == old(mem[..])[ptr..ptr + 6]
      ensures mem[..][ptr - delta + 6..ptr - delta + 6 + |bs|] == bs
    {
      hide Opened, Copied, Moved;
      ghost var m := mem[..];
      Move(from, from - delta, ptr - from + BTree.NODESIZE);
      ghost var m1 := mem[..];
      Write(ptr - delta + 6, bs);
      RekeyMoves(m, m1, mem[..], from, ptr, sz, delta, bs);
    }

    /** mdb_update_key: replace the key of a branch node, unless there is no room. */
    method UpdateKey(indx: nat, key: seq<byte>) returns (ok: bool)
      requires Valid() && !leaf && indx < |nodes| && |key| < 65536
      modifies this, ptrs, mem
      ensures Valid()
      ensures ok <==> BTree.Even(|key|) - BTree.Even(|old(nodes)[indx].key|) <= old(upper - lower)
      ensures ok ==> nodes == old(nodes)[indx := old(nodes)[indx].(key := key)] && lower == old(lower)
      ensures !ok ==> unchanged(this) && unchanged(ptrs) && unchanged(mem)
    {
      hide PageOk, Holds, Bytes, Lowered, Opened, BTree.Even;
      ghost var m, ps, node := mem[..], ptrs[..], nodes[indx];
      PageShape(m, leaf, ps, lower, upper, nodes);
      forall j | 0 <= j < |nodes| ensures ptrs[j] >= upper { NodeThere(m, leaf, ps, lower, upper, nodes, j); }
      NodeThere(m, leaf, ps, lower, upper, nodes, indx);
      var ptr := ptrs[indx];
      SizeAtOk(m, leaf, ptr, node);
      var delta := BTree.Even(|key|) - BTree.Even(U16(mem[..], ptr + 6));
      if delta > upper - lower { return false; }
      LowerPointers(indx, NumKeys(), delta);
      Rekey(upper, ptr, delta, key, node);
      RekeyOk(m, mem[..], leaf, ps, ptrs[..], lower, upper, nodes, indx, node.(key := key));
      nodes := nodes[indx := node.(key := key)];
      upper := upper - delta;
      return true;
    }
  }
}
