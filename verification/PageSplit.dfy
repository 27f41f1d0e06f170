/** Splitting the bytes of a page over two, through a scratch page. */
module PageSplit {
  import opened SplitPoint
  import opened SlottedPage

  // ---------------------------------------------------------------- the halves

  /** The first node of a branch page loses its key. */
  function Bare(leaf: bool, nodes: seq<Node>): (r: seq<Node>)
    ensures |r| == |nodes| && forall i :: 0 < i < |r| ==> r[i] == nodes[i]
    ensures r != [] ==> r[0] == First(leaf, 0, nodes[0])
  {
    if nodes == [] then [] else [First(leaf, 0, nodes[0])] + nodes[1..]
  }

  /** The node to store at index `j`. */
  function First(leaf: bool, j: nat, n: Node): Node {
    if !leaf && j == 0 then n.(key := []) else n
  }

  lemma BareStep(leaf: bool, nodes: seq<Node>, i: nat)
    requires i < |nodes|
    ensures Bare(leaf, nodes[..i + 1]) == Bare(leaf, nodes[..i]) + [First(leaf, i, nodes[i])]
  {
    assert nodes[..i + 1] == nodes[..i] + [nodes[i]];
  }

  /** Bytes that nodes and their offsets take. */
  function Need(nodes: seq<Node>): nat {
    Sum(Sizes(nodes)) + 2 * |nodes|
  }

  lemma NeedStep(a: seq<Node>, n: Node)
    ensures Need(a + [n]) == Need(a) + Bytes(n) + 2
  {
    SizesInsert(a, |a|, n);
    assert a[..|a|] + [n] + a[|a|..] == a + [n];
  }

  lemma {:induction false} NeedPrefix(nodes: seq<Node>, i: nat)
    requires i <= |nodes|
    ensures Need(nodes[..i]) <= Need(nodes)
    decreases |nodes| - i
  {
    if i < |nodes| {
      assert nodes[..i + 1] == nodes[..i] + [nodes[i]];
      NeedStep(nodes[..i], nodes[i]);
      NeedPrefix(nodes, i + 1);
    } else {
      assert nodes[..i] == nodes;
    }
  }

  // ---------------------------------------------------------------- reading nodes

  /** The node at `p`, read from the bytes. */
  function NodeOf(m: seq<byte>, leaf: bool, p: nat): Node
    requires p + BTree.NODESIZE <= |m|
  {
    var k, d := U16(m, p + 6), DataLen(leaf, m[p..p + 6]);
    if p + 8 + k + d <= |m| then Node(m[p..p + 6], m[p + 8..p + 8 + k], m[p + 8 + k..p + 8 + k + d])
      else Node([], [], [])
  }

  lemma NodeOfOk(m: seq<byte>, leaf: bool, p: nat, n: Node)
    requires Holds(m, leaf, p, n)
    ensures p + BTree.NODESIZE <= |m| && NodeOf(m, leaf, p) == n
  {
    SizeAtOk(m, leaf, p, n);
    var k, d := |n.key|, |n.data|;
    SliceOfSlice(m, p, p + Bytes(n), 0, 6);
    SliceOfSlice(m, p, p + Bytes(n), 8, 8 + k);
    SliceOfSlice(m, p, p + Bytes(n), 8 + k, 8 + k + d);
  }

  // ---------------------------------------------------------------- the scratch page

  /** Slots `from` .. of the scratch page still hold the offsets of the nodes of the old page. */
  ghost predicate Prepared(ptrs: seq<nat>, scratch: seq<nat>, n: nat, newindx: nat, from: nat) {
    && newindx <= n <= |ptrs| && n < |scratch|
    && forall i :: from <= i <= n && i != newindx ==> scratch[i] == ptrs[if i < newindx then i else i - 1]
  }

  lemma ReadPrepared(
      m: seq<byte>, leaf: bool, ptrs: seq<nat>, lower: nat, upper: nat, nodes: seq<Node>, scratch: seq<nat>,
      newindx: nat, from: nat, i: nat, n: Node)
    requires PageOk(m, leaf, ptrs, lower, upper, nodes) && newindx <= |nodes| &&
      Prepared(ptrs, scratch, |nodes|, newindx, from)
    requires from <= i <= |nodes| && i != newindx
    ensures scratch[i] + BTree.NODESIZE <= |m| && NodeOf(m, leaf, scratch[i]) == Inserted(nodes, newindx, n)[i]
    ensures WellFormed(leaf, Inserted(nodes, newindx, n)[i])
  {
    var k := if i < newindx then i else i - 1;
    NodeThere(m, leaf, ptrs, lower, upper, nodes, k);
    NodeOfOk(m, leaf, ptrs[k], nodes[k]);
  }

  /** A page with the same bytes from `upper` on and the same offsets holds the same nodes. */
  lemma PageOkCopied(
      m: seq<byte>, m': seq<byte>, leaf: bool, ptrs: seq<nat>, ptrs': seq<nat>, lower: nat, upper: nat,
      nodes: seq<Node>)
    requires PageOk(m, leaf, ptrs, lower, upper, nodes) && |m'| == |m| && |ptrs'| == |ptrs|
    requires m'[upper..] == m[upper..] && |nodes| <= |ptrs| && ptrs'[..|nodes|] == ptrs[..|nodes|]
    ensures PageOk(m', leaf, ptrs', lower, upper, nodes)
  {
    var ps := ptrs[..|nodes|];
    forall i | 0 <= i < |nodes| ensures Holds(m', leaf, ps[i], nodes[i]) {
      assert Holds(m, leaf, ps[i], nodes[i]) && upper <= ps[i];
      HoldsStill(m, m', leaf, upper, ps[i], nodes[i]);
    }
  }

  method Prepare(mp: Page, scratch: Page, newindx: nat)
    requires mp.Valid() && newindx <= |mp.nodes| && |mp.nodes| < scratch.ptrs.Length && mp.ptrs != scratch.ptrs
    modifies scratch.ptrs
    ensures Prepared(mp.ptrs[..], scratch.ptrs[..], |mp.nodes|, newindx, 0)
  {
    hide PageOk;
    PageShape(mp.mem[..], mp.leaf, mp.ptrs[..], mp.lower, mp.upper, mp.nodes);
    var nkeys, i, j := mp.NumKeys(), 0, 0;
    while i < nkeys
      invariant 0 <= i <= nkeys && j == if i <= newindx then i else i + 1
      invariant forall k :: 0 <= k < j && k != newindx ==> scratch.ptrs[k] == mp.ptrs[if k < newindx then k else k - 1]
    {
      if i == newindx {
        scratch.ptrs[j] := 0;
        j := j + 1;
      }
      scratch.ptrs[j] := mp.ptrs[i];
      i, j := i + 1, j + 1;
    }
  }

  /** Both pages of a split: distinct, of one kind and size, with room for one more offset. */
  ghost predicate Alike(mp: Page, rp: Page) {
    && mp != rp && mp.leaf == rp.leaf && mp.mem != rp.mem && mp.ptrs != rp.ptrs
    && mp.mem.Length == rp.mem.Length && mp.ptrs.Length == rp.ptrs.Length
  }

  /** Node `i` of the old page with the new node in place, read through the scratch page. */
  method ReadNode(mp: Page, scratch: Page, newindx: nat, i: nat, n: Node, ghost from: nat) returns (r: Node)
    requires mp.Valid() && from <= i <= |mp.nodes| && WellFormed(mp.leaf, n)
    requires Prepared(mp.ptrs[..], scratch.ptrs[..], |mp.nodes|, newindx, from)
    ensures r == Inserted(mp.nodes, newindx, n)[i] && WellFormed(mp.leaf, r)
  {
    hide PageOk, WellFormed, Inserted;
    if i == newindx {
      r := n;
    } else {
      ReadPrepared(mp.mem[..], mp.leaf, mp.ptrs[..], mp.lower, mp.upper, mp.nodes, scratch.ptrs[..], newindx, from, i,
        n);
      r := NodeOf(mp.mem[..], mp.leaf, scratch.ptrs[i]);
    }
  }

  lemma BareWellFormed(leaf: bool, j: nat, n: Node)
    requires WellFormed(leaf, n)
    ensures WellFormed(leaf, First(leaf, j, n))
  {}

  /** What a page holds after `count` nodes of `part` were added to it. */
  ghost predicate Filled(p: Page, part: seq<Node>, count: nat)
    reads p, p.ptrs, p.mem
  {
    p.Valid() && count <= |part| && p.nodes == Bare(p.leaf, part[..count])
  }

  /** Append one node to a page. */
  method AddNext(p: Page, ghost part: seq<Node>, j: nat, n: Node) returns (ok: bool)
    requires j < |part| && Filled(p, part, j) && n == part[j] && WellFormed(p.leaf, n)
    modifies p, p.ptrs, p.mem
    ensures p.Valid()
    ensures ok ==> Filled(p, part, j + 1) && p.ptrs[j] == p.upper
    ensures ok ==> forall i :: j < i < p.ptrs.Length ==> p.ptrs[i] == old(p.ptrs[i])
    ensures Need(Bare(p.leaf, part)) <= p.mem.Length - BTree.PAGEHDRSZ ==> ok
    ensures !ok ==> Need(Bare(p.leaf, part)) > p.mem.Length - BTree.PAGEHDRSZ
  {
    hide PageOk, WellFormed, Need;
    var b := First(p.leaf, j, n);
    BareWellFormed(p.leaf, j, n);
    PageShape(p.mem[..], p.leaf, p.ptrs[..], p.lower, p.upper, p.nodes);
    RoomIs(p.mem[..], p.leaf, p.ptrs[..], p.lower, p.upper, p.nodes);
    BareStep(p.leaf, part, j);
    NeedStep(p.nodes, b);
    NeedPrefix(Bare(p.leaf, part), j + 1);
    assert Bare(p.leaf, part)[..j + 1] == Bare(p.leaf, part[..j + 1]);
    assert Inserted(p.nodes, j, b) == p.nodes + [b];
    ok := p.NodeAdd(j, b);
  }

  lemma RoomIs(m: seq<byte>, leaf: bool, ptrs: seq<nat>, lower: nat, upper: nat, nodes: seq<Node>)
    requires PageOk(m, leaf, ptrs, lower, upper, nodes)
    ensures upper - lower == |m| - BTree.PAGEHDRSZ - Need(nodes)
  {}

  /** The nodes from `split` on go to the new right page. */
  method FillRight(mp: Page, rp: Page, scratch: Page, newindx: nat, split: nat, n: Node) returns (ok: bool)
    requires Alike(mp, rp) && Alike(mp, scratch) && Alike(rp, scratch) && mp.Valid() && rp.Valid() &&
      rp.nodes == [] && WellFormed(mp.leaf, n)
    requires 0 < split <= |mp.nodes| && Prepared(mp.ptrs[..], scratch.ptrs[..], |mp.nodes|, newindx, 0)
    modifies rp, rp.ptrs, rp.mem
    ensures rp.Valid()
    ensures var right := Bare(mp.leaf, Inserted(mp.nodes, newindx, n)[split..]);
      && (ok <==> Need(right) <= mp.mem.Length - BTree.PAGEHDRSZ)
      && (ok ==> rp.nodes == right)
  {
    hide PageOk, WellFormed, Need;
    ghost var all := Inserted(mp.nodes, newindx, n);
    ghost var part := all[split..];
    PageShape(mp.mem[..], mp.leaf, mp.ptrs[..], mp.lower, mp.upper, mp.nodes);
    var i, j, nkeys := split, 0, mp.NumKeys();
    assert part[..0] == [];
    while i <= nkeys
      invariant split <= i <= nkeys + 1 && j == i - split && Filled(rp, part, j)
      invariant Prepared(mp.ptrs[..], scratch.ptrs[..], |mp.nodes|, newindx, 0)
    {
      var r := ReadNode(mp, scratch, newindx, i, n, 0);
      ok := AddNext(rp, part, j, r);
      if !ok { return; }
      i, j := i + 1, j + 1;
    }
    assert part[..j] == part;
    ok := true;
    PageShape(rp.mem[..], rp.leaf, rp.ptrs[..], rp.lower, rp.upper, rp.nodes);
    RoomIs(rp.mem[..], rp.leaf, rp.ptrs[..], rp.lower, rp.upper, rp.nodes);
  }

  /** The nodes before `split` go to the scratch page, over the very slots they are read from. */
  method FillScratch(mp: Page, scratch: Page, newindx: nat, split: nat, n: Node) returns (ok: bool)
    requires Alike(mp, scratch) && mp.Valid() && scratch.Valid() && scratch.nodes == [] && WellFormed(mp.leaf, n)
    requires 0 < split <= |mp.nodes| && Prepared(mp.ptrs[..], scratch.ptrs[..], |mp.nodes|, newindx, 0)
    modifies scratch, scratch.ptrs, scratch.mem
    ensures scratch.Valid()
    ensures var left := Bare(mp.leaf, Inserted(mp.nodes, newindx, n)[..split]);
      && (ok <==> Need(left) <= mp.mem.Length - BTree.PAGEHDRSZ)
      && (ok ==> scratch.nodes == left && scratch.ptrs[split - 1] == scratch.upper)
  {
    hide PageOk, WellFormed, Need;
    ghost var part := Inserted(mp.nodes, newindx, n)[..split];
    var i := 0;
    assert part[..0] == [];
    while i < split
      invariant 0 <= i <= split && Filled(scratch, part, i)
      invariant Prepared(mp.ptrs[..], scratch.ptrs[..], |mp.nodes|, newindx, i)
      invariant i > 0 ==> scratch.ptrs[i - 1] == scratch.upper
    {
      ok := FillOne(mp, scratch, newindx, i, n, part);
      if !ok { return; }
      i := i + 1;
    }
    assert part[..i] == part;
    ok := true;
    RoomIs(scratch.mem[..], scratch.leaf, scratch.ptrs[..], scratch.lower, scratch.upper, scratch.nodes);
    PageShape(scratch.mem[..], scratch.leaf, scratch.ptrs[..], scratch.lower, scratch.upper, scratch.nodes);
  }

  /** One node: read through slot `i` of the scratch page, then stored over it. */
  method FillOne(mp: Page, scratch: Page, newindx: nat, i: nat, n: Node, ghost part: seq<Node>) returns (ok: bool)
    requires Alike(mp, scratch) && mp.Valid() && i < |mp.nodes| && WellFormed(mp.leaf, n)
    requires Prepared(mp.ptrs[..], scratch.ptrs[..], |mp.nodes|, newindx, i)
    requires i < |part| && Filled(scratch, part, i) && part[i] == Inserted(mp.nodes, newindx, n)[i]
    modifies scratch, scratch.ptrs, scratch.mem
    ensures scratch.Valid() && mp.Valid()
    ensures ok ==> Filled(scratch, part, i + 1) && scratch.ptrs[i] == scratch.upper
    ensures ok ==> Prepared(mp.ptrs[..], scratch.ptrs[..], |mp.nodes|, newindx, i + 1)
    ensures !ok ==> Need(Bare(scratch.leaf, part)) > scratch.mem.Length - BTree.PAGEHDRSZ
  {
    hide PageOk, WellFormed, Need, Inserted, Bare;
    var r := ReadNode(mp, scratch, newindx, i, n, i);
    ok := AddNext(scratch, part, i, r);
  }

  /** Copy the scratch page back: its offsets, and its bytes from the last node on. */
  method CopyBack(mp: Page, scratch: Page)
    requires Alike(mp, scratch) && scratch.Valid() && scratch.nodes != [] && |scratch.nodes| <= scratch.ptrs.Length
    requires scratch.ptrs[|scratch.nodes| - 1] == scratch.upper
    modifies mp, mp.ptrs, mp.mem
    ensures mp.Valid() && mp.nodes == scratch.nodes
  {
    hide PageOk;
    ghost var m, ps := scratch.mem[..], scratch.ptrs[..];
    PageShape(m, scratch.leaf, ps, scratch.lower, scratch.upper, scratch.nodes);
    var nkeys := scratch.NumKeys();
    CopyPointers(mp, scratch, nkeys);
    CopyBytes(mp, scratch, scratch.ptrs[nkeys - 1]);
    PageOkCopied(m, mp.mem[..], mp.leaf, ps, mp.ptrs[..], scratch.lower, scratch.upper, scratch.nodes);
    mp.lower, mp.upper, mp.nodes := scratch.lower, scratch.upper, scratch.nodes;
  }

  method CopyPointers(mp: Page, from: Page, n: nat)
    requires mp.ptrs != from.ptrs && mp.ptrs.Length == from.ptrs.Length && n <= from.ptrs.Length
    modifies mp.ptrs
    ensures mp.ptrs[..][..n] == old(from.ptrs[..])[..n]
  {
    forall i | 0 <= i < n { mp.ptrs[i] := from.ptrs[i]; }
  }

  method CopyBytes(mp: Page, from: Page, p: nat)
    requires mp.mem != from.mem && mp.mem.Length == from.mem.Length && p <= from.mem.Length
    modifies mp.mem
    ensures mp.mem[..][p..] == old(from.mem[..])[p..]
  {
    forall i | p <= i < mp.mem.Length { mp.mem[i] := from.mem[i]; }
  }

  /**
    mdb_page_split, on bytes: left and right page together hold the old nodes with the new one in
    place; a page that is full leaves the old page alone.
   */
  method SplitNodes(mp: Page, rp: Page, newindx: nat, split: nat, n: Node) returns (ok: bool)
    requires Alike(mp, rp) && mp.Valid() && rp.Valid() && rp.nodes == [] && WellFormed(mp.leaf, n)
    requires newindx <= |mp.nodes| && 0 < split <= |mp.nodes|
    modifies mp, mp.ptrs, mp.mem, rp, rp.ptrs, rp.mem
    ensures mp.Valid() && rp.Valid()
    ensures var all := Inserted(old(mp.nodes), newindx, n);
      var left, right := Bare(mp.leaf, all[..split]), Bare(mp.leaf, all[split..]);
      && (ok <==> Need(left) <= mp.mem.Length - BTree.PAGEHDRSZ && Need(right) <= mp.mem.Length - BTree.PAGEHDRSZ)
      && (if ok then mp.nodes == left && rp.nodes == right else mp.nodes == old(mp.nodes))
  {
    hide PageOk, WellFormed, Need, Prepared, Bare, Inserted;
    SlotsLeft(mp.mem[..], mp.leaf, mp.ptrs[..], mp.lower, mp.upper, mp.nodes);
    PageShape(mp.mem[..], mp.leaf, mp.ptrs[..], mp.lower, mp.upper, mp.nodes);
    var scratch := new Page(mp.leaf, mp.mem.Length);
    PageShape(scratch.mem[..], scratch.leaf, scratch.ptrs[..], scratch.lower, scratch.upper, scratch.nodes);
    ghost var ps := scratch.ptrs[..];
    Prepare(mp, scratch, newindx);
    PageOkCopied(scratch.mem[..], scratch.mem[..], scratch.leaf, ps, scratch.ptrs[..], scratch.lower, scratch.upper,
      []);
    ok := FillRight(mp, rp, scratch, newindx, split, n);
    if ok { ok := FillScratch(mp, scratch, newindx, split, n); }
    if ok { CopyBack(mp, scratch); }
  }

  /** Nodes are larger than offsets, so there is an offset slot to spare. */
  lemma SlotsLeft(m: seq<byte>, leaf: bool, ptrs: seq<nat>, lower: nat, upper: nat, nodes: seq<Node>)
    requires PageOk(m, leaf, ptrs, lower, upper, nodes) && nodes != []
    ensures |nodes| < |ptrs|
  {
    SumHolds(Sizes(nodes), 0);
    RoomIs(m, leaf, ptrs, lower, upper, nodes);
  }

  // ---------------------------------------------------------------- the whole split

  /** What the split point search adds up. */
  function Costs(nodes: seq<Node>): (r: seq<nat>)
    ensures |r| == |nodes| && forall i :: 0 <= i < |r| ==> r[i] == Bytes(nodes[i]) + 2
    ensures Sum(r) == Need(nodes)
  {
    if nodes == [] then [] else
      assert Sizes(nodes)[1..] == Sizes(nodes[1..]);
      [Bytes(nodes[0]) + 2] + Costs(nodes[1..])
  }

  lemma BareIsNoLarger(leaf: bool, nodes: seq<Node>)
    ensures Need(Bare(leaf, nodes)) <= Need(nodes)
  {
    if nodes != [] {
      var b := Bare(leaf, nodes);
      assert Costs(b)[1..] == Costs(nodes)[1..];
    }
  }

  lemma CostsCut(nodes: seq<Node>, s: nat)
    requires s <= |nodes|
    ensures Sum(Costs(nodes)[..s]) == Need(nodes[..s]) && Sum(Costs(nodes)[s..]) == Need(nodes[s..])
  {
    hide Costs, Need, Sum, Bytes;
    var a, b, c, d := Costs(nodes)[..s], Costs(nodes[..s]), Costs(nodes)[s..], Costs(nodes[s..]);
    forall i | 0 <= i < s ensures a[i] == b[i] { assert nodes[..s][i] == nodes[i]; }
    assert a == b;
    forall i | 0 <= i < |nodes| - s ensures c[i] == d[i] { assert nodes[s..][i] == nodes[s + i]; }
    assert c == d;
  }

  /** Searched for or not, the split point leaves something on both sides. */
  lemma SplitInside(sizes: seq<nat>, newindx: nat, pmax: nat)
    requires |sizes| >= 3 && newindx < |sizes| && Sum(sizes) - sizes[newindx] <= pmax
    requires forall i :: 0 <= i < |sizes| ==> sizes[i] <= pmax / 2
    ensures 0 < SplitIndex(sizes, newindx, pmax) < |sizes|
  {
    if Searched(|sizes| - 1, sizes[newindx], newindx, pmax) { SplitFits(sizes, newindx, pmax); }
  }

  /** A searched split always fits: no node_add of mdb_page_split returns MDB_PAGE_FULL. */
  lemma SearchedSplitFits(leaf: bool, all: seq<Node>, newindx: nat, pmax: nat)
    requires |all| >= 3 && newindx < |all| && Need(all) - (Bytes(all[newindx]) + 2) <= pmax
    requires forall i :: 0 <= i < |all| ==> Bytes(all[i]) + 2 <= pmax / 2
    requires Searched(|all| - 1, Bytes(all[newindx]) + 2, newindx, pmax)
    ensures var s := SplitIndex(Costs(all), newindx, pmax);
      && 0 < s < |all|
      && Need(Bare(leaf, all[..s])) <= pmax && Need(Bare(leaf, all[s..])) <= pmax
  {
    hide SplitIndex, Searched, Need, Bare, Costs, Bytes, Sum;
    SplitFits(Costs(all), newindx, pmax);
    var s := SplitIndex(Costs(all), newindx, pmax);
    CostsCut(all, s);
    BareIsNoLarger(leaf, all[..s]);
    BareIsNoLarger(leaf, all[s..]);
  }

  /** mdb_page_split without the parent: find the split point, then move the nodes. */
  method SplitPage(mp: Page, rp: Page, newindx: nat, n: Node) returns (ok: bool, split: nat)
    requires Alike(mp, rp) && mp.Valid() && rp.Valid() && rp.nodes == [] && WellFormed(mp.leaf, n)
    requires newindx <= |mp.nodes| && |mp.nodes| >= 2 && mp.mem.Length >= BTree.PAGEHDRSZ
    requires forall i :: 0 <= i <= |mp.nodes| ==>
      Bytes(Inserted(mp.nodes, newindx, n)[i]) + 2 <= (mp.mem.Length - BTree.PAGEHDRSZ) / 2
    modifies mp, mp.ptrs, mp.mem, rp, rp.ptrs, rp.mem
    ensures mp.Valid() && rp.Valid() && 0 < split <= |old(mp.nodes)|
    ensures var all := Inserted(old(mp.nodes), newindx, n);
      if ok then mp.nodes == Bare(mp.leaf, all[..split]) && rp.nodes == Bare(mp.leaf, all[split..]) &&
        mp.nodes != [] && rp.nodes != []
      else mp.nodes == old(mp.nodes)
    ensures Searched(|old(mp.nodes)|, Bytes(n) + 2, newindx, mp.mem.Length - BTree.PAGEHDRSZ) ==> ok
    ensures IsSplitPoint(Costs(Inserted(old(mp.nodes), newindx, n)), newindx, mp.mem.Length - BTree.PAGEHDRSZ, split)
  {
    hide PageOk, WellFormed, Need, Bare, SplitIndex, Searched, Costs, Bytes, Sum, Inserted, IsSplitPoint;
    var pmax := mp.mem.Length - BTree.PAGEHDRSZ;
    var sizes := NodeCosts(mp, newindx, n);
    ghost var all := Inserted(mp.nodes, newindx, n);
    RoomIs(mp.mem[..], mp.leaf, mp.ptrs[..], mp.lower, mp.upper, mp.nodes);
    PageShape(mp.mem[..], mp.leaf, mp.ptrs[..], mp.lower, mp.upper, mp.nodes);
    NeedInsert(mp.nodes, newindx, n);
    if Searched(|mp.nodes|, Bytes(n) + 2, newindx, pmax) { SearchedSplitFits(mp.leaf, all, newindx, pmax); }
    SplitInside(sizes, newindx, pmax);
    var s := FindSplit(sizes, newindx, pmax);
    split := s;
    ok := SplitNodes(mp, rp, newindx, split, n);
  }

  lemma NeedInsert(nodes: seq<Node>, i: nat, n: Node)
    requires i <= |nodes|
    ensures Need(Inserted(nodes, i, n)) == Need(nodes) + Bytes(n) + 2
  {
    SizesInsert(nodes, i, n);
  }

  /** The size of every node, read from the page, with the new node in place. */
  method NodeCosts(mp: Page, newindx: nat, n: Node) returns (sizes: seq<nat>)
    requires mp.Valid() && newindx <= |mp.nodes|
    ensures sizes == Costs(Inserted(mp.nodes, newindx, n))
  {
    hide PageOk, Holds, SizeAt, Bytes, Inserted, Costs, U16;
    PageShape(mp.mem[..], mp.leaf, mp.ptrs[..], mp.lower, mp.upper, mp.nodes);
    var nkeys, i := mp.NumKeys(), 0;
    sizes := [];
    while i <= nkeys
      invariant 0 <= i <= nkeys + 1 && |sizes| == i
      invariant forall k :: 0 <= k < i ==> sizes[k] == Bytes(Inserted(mp.nodes, newindx, n)[k]) + 2
    {
      if i == newindx {
        sizes := sizes + [Bytes(n) + 2];
      } else {
        var k := if i < newindx then i else i - 1;
        NodeThere(mp.mem[..], mp.leaf, mp.ptrs[..], mp.lower, mp.upper, mp.nodes, k);
        SizeAtOk(mp.mem[..], mp.leaf, mp.ptrs[k], mp.nodes[k]);
        sizes := sizes + [SizeAt(mp.mem[..], mp.leaf, mp.ptrs[k]) + 2];
      }
      i := i + 1;
    }
  }
}
