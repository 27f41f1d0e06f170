/**
  When pages are split, cut, topped up and merged: the sizes that decide, stated as inequalities
  between bytes, and what each decision does to the number of nodes on a page.
 */
module BTreeBalance {
  import opened BTree
  import opened BTreeShape
  import opened SplitPoint
  import opened BTreeOps
  import opened BTreeProofs
  import opened BTreePut
  import opened BTreeDelete
  import SlottedPage

  // ---------------------------------------------------------------- sizes

  /** me_nodemax: the largest even size of which two nodes, with their index entries, fit on a page. */
  lemma NodeMaxExact(env: Env)
    requires EnvOk(env)
    ensures NodeMax(env) % 2 == 0 && 2 * (NodeMax(env) + INDX) <= PMax(env) < 2 * (NodeMax(env) + 2 + INDX)
  {}

  /**
    A leaf node takes its header, its key and its data, or a page number instead of data that would
    make it larger than that; rounded up to even.
   */
  lemma LeafSizeExact(env: Env, e: Entry)
    requires EnvOk(env)
    ensures var node := NODESIZE + env.ksize(e.key) +
        if NODESIZE + env.ksize(e.key) + |e.val| <= NodeMax(env) then |e.val| else PGNO;
      LeafSize(env, e) % 2 == 0 && node + INDX <= LeafSize(env, e) <= node + INDX + 1
  {}

  /** These are the bytes such a node takes on a page, and its index entry. */
  lemma LeafSizeIsBytes(env: Env, e: Entry, n: SlottedPage.Node)
    requires EnvOk(env) && |n.key| == env.ksize(e.key)
    requires |n.data| == if NODESIZE + env.ksize(e.key) + |e.val| <= NodeMax(env) then |e.val| else PGNO
    ensures LeafSize(env, e) == SlottedPage.Bytes(n) + INDX
  {}

  /** A page needs rebalancing when it is less than a quarter full, or has too few nodes. */
  lemma UnderfullExact(env: Env, t: Tree)
    requires EnvOk(env)
    ensures Underfull(env, t) <==> 4 * Used(env, t) < PMax(env) || NumKeys(t) < (if t.Leaf? then 1 else 2)
  {
    FillExact(Used(env, t), PMax(env));
  }

  /** A page can spare a node when it is at least a quarter full, and has more nodes than it must. */
  lemma RichExact(env: Env, t: Tree)
    requires EnvOk(env)
    ensures Rich(env, t) <==> 4 * Used(env, t) >= PMax(env) && NumKeys(t) > (if t.Leaf? then 1 else 2)
  {
    FillExact(Used(env, t), PMax(env));
  }

  lemma FillExact(used: nat, pmax: nat)
    requires pmax > 0
    ensures 1000 * used / pmax < FILL_THRESHOLD <==> 4 * used < pmax
  {
    if 1000 * used / pmax < FILL_THRESHOLD {
      LowFill(used, pmax);
    } else {
      var q := 1000 * used / pmax;
      assert q * pmax <= 1000 * used;
      assert q * pmax >= 250 * pmax;
    }
  }

  // ---------------------------------------------------------------- splits

  /** A leaf is split exactly when it does not fit with the entry in place. */
  lemma PutLeafSplits(env: Env, es: seq<Entry>, e: Entry)
    requires EnvOk(env)
    ensures PutLeaf(env, es, e).One? <==> LeafUsed(env, With(es, e)) <= PMax(env)
    ensures PutLeaf(env, es, e).One? ==> PutLeaf(env, es, e).t == Leaf(With(es, e))
  {
    hide With, Without, EntryIndex, LeafUsed, LeafSize;
    PutSizes(env, es, e);
  }

  /** A branch is split exactly when it does not fit with the new separator. */
  lemma AddKidSplits(env: Env, seps: seq<Key>, kids: seq<Tree>, i: nat, l: Tree, m: Key, r: Tree)
    requires EnvOk(env) && |kids| == |seps| + 1 && i < |kids|
    ensures AddKid(env, seps, kids, i, l, m, r).One? <==>
      SLOT0 + SepsUsed(env, seps[..i] + [m] + seps[i..]) <= PMax(env)
  {
    hide SepsUsed, BranchSize, SplitIndex;
    AddSep(env, seps, i, m);
    RoomForSep(env, seps, m);
  }

  lemma UpdateSepSplits(env: Env, seps: seq<Key>, kids: seq<Tree>, i: nat, m: Key)
    requires EnvOk(env) && |kids| == |seps| + 1 && i < |seps| && SLOT0 + SepsUsed(env, seps) <= PMax(env)
    ensures UpdateSep(env, seps, kids, i, m).One? <==> SLOT0 + SepsUsed(env, seps[i := m]) <= PMax(env)
  {
    hide SepsUsed, BranchSize, SplitIndex;
    UpdateSepSizes(env, seps, i, m);
  }

  /** A split leaf is cut at the split point of its node sizes. */
  lemma SplitLeafCut(env: Env, es: seq<Entry>, newindx: nat)
    requires EnvOk(env) && newindx < |es|
    ensures var g := SplitLeaf(env, es, newindx);
      g.Two? ==>
        && g.l.Leaf? && g.r.Leaf? && g.l.es + g.r.es == es && g.r.es != [] && g.sep == g.r.es[0].key
        && IsSplitPoint(LeafSizes(env, es), newindx, PMax(env), |g.l.es|)
  {
    hide LeafUsed, LeafSize, SplitIndex, IsSplitPoint;
    var g := SplitLeaf(env, es, newindx);
    if g.Two? {
      var s := SplitIndex(LeafSizes(env, es), newindx, PMax(env));
      SplitIndexIs(LeafSizes(env, es), newindx, PMax(env), s);
      CutOnce(es, s);
    }
  }

  /** A split branch is cut at the split point of its node sizes, and the separator there moves up. */
  lemma SplitBranchCut(env: Env, seps: seq<Key>, kids: seq<Tree>, newindx: nat)
    requires EnvOk(env) && |kids| == |seps| + 1 && newindx < |kids|
    ensures var g := SplitBranch(env, seps, kids, newindx);
      !g.PageFull? ==>
        && g.Two? && g.l.Branch? && g.r.Branch?
        && g.l.kids + g.r.kids == kids && g.l.seps + [g.sep] + g.r.seps == seps
        && IsSplitPoint(BranchSizes(env, seps), newindx, PMax(env), |g.l.kids|)
  {
    hide SepsUsed, BranchSize, SplitIndex, IsSplitPoint, BranchSizes;
    var g := SplitBranch(env, seps, kids, newindx);
    if g.Two? {
      var s := SplitIndex(BranchSizes(env, seps), newindx, PMax(env));
      SplitIndexIs(BranchSizes(env, seps), newindx, PMax(env), s);
      CutOnce(kids, s);
      CutTwice(seps, s - 1, s);
      SliceOne(seps, s - 1);
    }
  }

  // ---------------------------------------------------------------- rebalancing

  /** The children of what became of a branch. */
  function GrownKids(g: Grown): seq<Tree> {
    match g
    case One(t) => if t.Branch? then t.kids else []
    case Two(l, _, r) => if l.Branch? && r.Branch? then l.kids + r.kids else []
    case PageFull => []
  }

  lemma UpdateSepKids(env: Env, seps: seq<Key>, kids: seq<Tree>, i: nat, m: Key)
    requires EnvOk(env) && |kids| == |seps| + 1 && i < |seps|
    ensures var g := UpdateSep(env, seps, kids, i, m); !g.PageFull? ==> GrownKids(g) == kids
  {
    hide SplitBranch, SepsUsed;
    SplitBranchCut(env, seps[i := m], kids, i + 1);
  }

  lemma MoveCounts(l: Tree, r: Tree)
    requires Shaped(l) && Shaped(r) && (l.Leaf? <==> r.Leaf?)
    ensures NumKeys(r) > MinKeys(r) ==>
      NumKeys(MoveLeft(l, r).0) == NumKeys(l) + 1 && NumKeys(MoveLeft(l, r).2) == NumKeys(r) - 1
    ensures NumKeys(l) > MinKeys(l) ==>
      NumKeys(MoveRight(l, r).0) == NumKeys(l) - 1 && NumKeys(MoveRight(l, r).2) == NumKeys(r) + 1
    ensures NumKeys(Merge(l, r)) == NumKeys(l) + NumKeys(r)
  {}

  /**
    What rebalancing child `i`, now `c`, does.  A child at least a quarter full stays.  Otherwise a
    neighbour that is at least a quarter full and has a node to spare gives it one; any other
    neighbour becomes one page with it.  No other child is touched.
   */
  lemma RebalanceExact(env: Env, seps: seq<Key>, kids: seq<Tree>, i: nat, c: Tree)
    requires EnvOk(env) && |kids| == |seps| + 1 && i < |kids| && |kids| >= 2 && Shaped(c)
    requires var n := kids[if i == 0 then 1 else i - 1]; Shaped(n) && (n.Leaf? <==> c.Leaf?)
    ensures var j := if i == 0 then 1 else i - 1;
      var n, s := kids[j], Rebalance(env, seps, kids, i, c);
      var poor := 4 * Used(env, c) < PMax(env) || NumKeys(c) < (if c.Leaf? then 1 else 2);
      var rich := 4 * Used(env, n) >= PMax(env) && NumKeys(n) > (if n.Leaf? then 1 else 2);
      && s.Done?
      && (!poor ==> s == Done(One(Branch(seps, kids[i := c])), false))
      && (poor && rich && !s.g.PageFull? ==>
          var ks := GrownKids(s.g);
          && !s.check && |ks| == |kids| && NumKeys(ks[i]) == NumKeys(c) + 1 && NumKeys(ks[j]) == NumKeys(n) - 1
          && forall q :: 0 <= q < |kids| && q != i && q != j ==> ks[q] == kids[q])
      && (poor && !rich ==>
          var ks, k := GrownKids(s.g), if i == 0 then 0 else i - 1;
          && s.check && s.g.One? && |ks| == |kids| - 1 && NumKeys(ks[k]) == NumKeys(c) + NumKeys(n)
          && ks[..k] == kids[..k] && ks[k + 1..] == kids[k + 2..])
  {
    hide Fill, Used, UpdateSep, MoveLeft, MoveRight, Merge, EnvOk;
    var j := if i == 0 then 1 else i - 1;
    var n := kids[j];
    UnderfullExact(env, c);
    RichExact(env, n);
    hide Underfull, Rich;
    if i == 0 {
      MoveCounts(c, n);
      var (l, m, r) := MoveLeft(c, n);
      UpdateSepKids(env, seps, kids[0 := l][1 := r], 0, m);
    } else {
      MoveCounts(n, c);
      var (l, m, r) := MoveRight(n, c);
      UpdateSepKids(env, seps, kids[i - 1 := l][i := r], i - 1, m);
    }
  }

  /** A deletion asks for its page to be rebalanced exactly when the page lost a node. */
  lemma {:induction false} DeleteChecks(env: Env, t: Tree, k: Key, d: nat, lo: Bound, hi: Bound)
    requires EnvOk(env) && Weak(env, t, d, lo, hi) && NumKeys(t) >= MinKeys(t) && AtLeast(lo, k) && Below(k, hi)
    ensures var s := Delete(env, t, k);
      s.Done? && s.g.One? ==> (if s.check then NumKeys(s.g.t) == NumKeys(t) - 1 else NumKeys(s.g.t) >= NumKeys(t))
    ensures t.Leaf? && Delete(env, t, k).Done? ==> Delete(env, t, k).check
    decreases t
  {
    match t
    case Leaf(es) =>
    case Branch(seps, kids) =>
      var i := KidIndex(seps, k);
      KidIndexOk(seps, k, lo, hi);
      assert Valid(env, kids[i], d - 1, KidLo(seps, lo, i), KidHi(seps, hi, i));
      var s := Delete(env, kids[i], k);
      DeleteOk(env, kids[i], k, d - 1, KidLo(seps, lo, i), KidHi(seps, hi, i));
      hide Delete, Valid, KidIndex, KidLo, KidHi, AtLeast, Below, Has, Removed;
      if s.Done? { AfterKidCounts(env, seps, kids, i, s, d - 1, lo, hi); }
  }

  lemma AfterKidCounts(
      env: Env, seps: seq<Key>, kids: seq<Tree>, i: nat, s: Shrunk, d: nat, lo: Bound, hi: Bound)
    requires EnvOk(env) && Weak(env, Branch(seps, kids), d + 1, lo, hi) && |kids| == |seps| + 1 && i < |kids| &&
      |kids| >= 2
    requires s.Done? && ShrunkOk(env, s, d, KidLo(seps, lo, i), KidHi(seps, hi, i))
    ensures var r := AfterKid(env, seps, kids, i, s);
      r.Done? && r.g.One? ==> (if r.check then NumKeys(r.g.t) == |kids| - 1 else NumKeys(r.g.t) >= |kids|)
  {
    if s.check && s.g.One? {
      var j := if i == 0 then 1 else i - 1;
      WeakShape(env, s.g.t, d, KidLo(seps, lo, i), KidHi(seps, hi, i));
      assert Valid(env, kids[j], d, KidLo(seps, lo, j), KidHi(seps, hi, j));
      WeakShape(env, kids[j], d, KidLo(seps, lo, j), KidHi(seps, hi, j));
      hide Weak, Valid, KidsOk, KidLo, KidHi, Rebalance, EnvOk, SepsUsed, Used;
      RebalanceExact(env, seps, kids, i, s.g.t);
    }
  }
}
