/** Deleting a key: borrowing and merging always find room, and keep all other entries. */
module BTreeDelete {
  import opened BTree
  import opened BTreeShape
  import opened BTreeOps
  import opened BTreeProofs
  import opened BTreePut

  // ---------------------------------------------------------------- room

  /** Two neighbouring pages around the separator `m`, either perhaps with too few keys. */
  ghost predicate WeakPair(env: Env, l: Tree, m: Key, r: Tree, d: nat, lo: Bound, hi: Bound) {
    Weak(env, l, d, lo, At(m)) && Weak(env, r, d, At(m), hi) && Above(lo, m) && Below(m, hi)
  }

  /** A page below the fill threshold, or with too few keys, is less than a quarter full. */
  lemma UnderfullIsSmall(env: Env, t: Tree)
    requires EnvOk(env) && Underfull(env, t) && Shaped(t)
    ensures 4 * Used(env, t) < PMax(env)
  {
    if Fill(env, t) < FILL_THRESHOLD { LowFill(Used(env, t), PMax(env)); }
  }

  lemma LowFill(used: nat, pmax: nat)
    requires pmax > 0 && 1000 * used / pmax < FILL_THRESHOLD
    ensures 4 * used < pmax
  {
    var q := 1000 * used / pmax;
    assert 1000 * used < (q + 1) * pmax;
    assert (q + 1) * pmax <= 250 * pmax;
  }

  /** A neighbour that cannot spare a node leaves room for everything on an underfull page. */
  lemma PoorIsSmall(env: Env, t: Tree)
    requires EnvOk(env) && !Rich(env, t) && Shaped(t)
    ensures t.Leaf? ==> 2 * Used(env, t) <= PMax(env)
    ensures t.Branch? ==> 4 * Used(env, t) < PMax(env)
  {
    if Fill(env, t) < FILL_THRESHOLD {
      LowFill(Used(env, t), PMax(env));
    } else {
      match t
      case Leaf(es) => if |es| == 1 { NodeSizes(env, es[0], 0); assert LeafUsed(env, es) == LeafSize(env, es[0]); }
      case Branch(seps, _) =>
        if |seps| == 1 {
          NodeSizes(env, Entry(0, []), seps[0]);
          assert SepsUsed(env, seps) == BranchSize(env, seps[0]);
        }
    }
  }

  /** Bytes the receiving page needs while `from` is merged into it: slot 0 of a branch gets its key back. */
  function MergeNeed(env: Env, from: Tree): nat
    requires Shaped(from)
  {
    match from
    case Leaf(es) => LeafUsed(env, es)
    case Branch(seps, _) => BranchSize(env, Lowest(from)) + SepsUsed(env, seps)
  }

  /** Bytes the receiving page needs for one node of `from`, and to give its own slot 0 a key. */
  ghost predicate MoveNeeds(env: Env, from: Tree, to: Tree, need: nat) {
    match from
    case Leaf(es) => exists i :: 0 <= i < |es| && need == LeafSize(env, es[i])
    case Branch(seps, _) => exists k :: need == BranchSize(env, k) + BranchSize(env, Lowest(to))
  }

  /** Rebalancing always has room, whichever of the two pages is the underfull one. */
  lemma RebalanceHasRoom(env: Env, c: Tree, n: Tree, need: nat)
    requires EnvOk(env) && Underfull(env, c) && Shaped(c) && Shaped(n) && (c.Leaf? <==> n.Leaf?)
    ensures Rich(env, n) && MoveNeeds(env, n, c, need) ==> Used(env, c) + need <= PMax(env)
    ensures !Rich(env, n) ==>
      Used(env, c) + MergeNeed(env, n) <= PMax(env) && Used(env, n) + MergeNeed(env, c) <= PMax(env)
  {
    UnderfullIsSmall(env, c);
    if Rich(env, n) && MoveNeeds(env, n, c, need) {
      match n
      case Leaf(es) =>
        var i :| 0 <= i < |es| && need == LeafSize(env, es[i]);
        NodeSizes(env, es[i], 0);
      case Branch(_, _) =>
        var k :| need == BranchSize(env, k) + BranchSize(env, Lowest(c));
        NodeSizes(env, Entry(0, []), k);
        NodeSizes(env, Entry(0, []), Lowest(c));
    }
    if !Rich(env, n) {
      PoorIsSmall(env, n);
      NodeSizes(env, Entry(0, []), Lowest(n));
      NodeSizes(env, Entry(0, []), Lowest(c));
    }
  }

  // ---------------------------------------------------------------- merge

  lemma MergeOk(env: Env, l: Tree, m: Key, r: Tree, d: nat, lo: Bound, hi: Bound)
    requires EnvOk(env) && WeakPair(env, l, m, r, d, lo, hi) && Shaped(l) && Shaped(r) && (l.Leaf? <==> r.Leaf?)
    requires Used(env, l) + MergeNeed(env, r) <= PMax(env) && NumKeys(l) + NumKeys(r) >= MinKeys(l)
    ensures Valid(env, Merge(l, r), d, lo, hi) && Items(Merge(l, r)) == Items(l) + Items(r)
  {
    match l
    case Leaf(a) =>
      SortedConcat(a, r.es, lo, m, hi);
      LeafUsedConcat(env, a, r.es);
      assert Weak(env, Leaf(a + r.es), d, lo, hi);
    case Branch(s, a) =>
      var w := Lowest(r);
      MergeKids(env, s, a, m, r.seps, r.kids, d - 1, lo, hi);
      SepsUsed3(env, s, w, r.seps);
      assert Weak(env, Branch(s + [w] + r.seps, a + r.kids), d, lo, hi);
  }

  lemma MergeKids(env: Env, s: seq<Key>, a: seq<Tree>, m: Key, u: seq<Key>, b: seq<Tree>, d: nat, lo: Bound, hi: Bound)
    requires KidsOk(env, s, a, d, lo, At(m)) && KidsOk(env, u, b, d, At(m), hi) && Above(lo, m) && Below(m, hi)
    ensures KidsOk(env, s + [Lowest(b[0])] + u, a + b, d, lo, hi) && Flat(a + b) == Flat(a) + Flat(b)
  {
    var w := Lowest(b[0]);
    RaiseLowKids(env, u, b, d, At(m), hi);
    WidenKids(env, s, a, d, lo, At(m), lo, At(w));
    Glue(env, s, a, w, u, b, d, lo, hi);
  }

  // ---------------------------------------------------------------- move

  lemma MoveLeftLeaf(env: Env, a: seq<Entry>, m: Key, b: seq<Entry>, lo: Bound, hi: Bound)
    requires WeakPair(env, Leaf(a), m, Leaf(b), 0, lo, hi) && |b| > 1
    requires LeafUsed(env, a) + LeafSize(env, b[0]) <= PMax(env)
    ensures GrownOk(env, Two(Leaf(a + [b[0]]), b[1].key, Leaf(b[1..])), 0, lo, hi)
    ensures (a + [b[0]]) + b[1..] == a + b
  {
    LeafUsedConcat(env, a, [b[0]]);
    assert LeafUsed(env, [b[0]]) == LeafSize(env, b[0]);
    SortedConcat(a, b, lo, m, hi);
    SortedCut(a + b, |a| + 1, lo, hi);
    assert (a + b)[..|a| + 1] == a + [b[0]] && (a + b)[|a| + 1..] == b[1..];
    hide SortedEntries, EntriesWithin, LeafSize;
    ValidLeaf(env, a + [b[0]], lo, At(b[1].key));
    ValidLeaf(env, b[1..], At(b[1].key), hi);
  }

  lemma MoveRightLeaf(env: Env, a: seq<Entry>, m: Key, b: seq<Entry>, lo: Bound, hi: Bound)
    requires WeakPair(env, Leaf(a), m, Leaf(b), 0, lo, hi) && |a| > 1
    requires LeafUsed(env, b) + LeafSize(env, a[|a| - 1]) <= PMax(env)
    ensures GrownOk(env, Two(Leaf(a[..|a| - 1]), a[|a| - 1].key, Leaf([a[|a| - 1]] + b)), 0, lo, hi)
    ensures a[..|a| - 1] + ([a[|a| - 1]] + b) == a + b
  {
    var n := |a| - 1;
    LeafWithout(env, a, n);
    SortedConcat(a, b, lo, m, hi);
    SortedCut(a + b, n, lo, hi);
    assert (a + b)[..n] == a[..n] && (a + b)[n..] == [a[n]] + b;
    assert ([a[n]] + b)[1..] == b;
    hide SortedEntries, EntriesWithin, LeafSize;
    ValidLeaf(env, a[..n], lo, At(a[n].key));
    ValidLeaf(env, [a[n]] + b, At(a[n].key), hi);
  }

  lemma MoveLeftKids(
      env: Env, s: seq<Key>, a: seq<Tree>, m: Key, u: seq<Key>, b: seq<Tree>, d: nat, lo: Bound, hi: Bound)
    requires KidsOk(env, s, a, d, lo, At(m)) && KidsOk(env, u, b, d, At(m), hi) && Above(lo, m) && Below(m, hi)
    requires |b| == |u| + 1 && |b| > 1
    ensures KidsOk(env, s + [Lowest(b[0])], a + [b[0]], d, lo, At(u[0])) && KidsOk(env, u[1..], b[1..], d, At(u[0]), hi)
    ensures Above(lo, u[0]) && Below(u[0], hi)
    ensures Flat(a + [b[0]]) + Flat(b[1..]) == Flat(a) + Flat(b)
  {
    hide KidsOk, Flat, Lowest;
    Cut(env, u, b, d, At(m), hi, 1);
    assert u[..0] == [] && b[..1] == [b[0]];
    MergeKids(env, s, a, m, [], [b[0]], d, lo, At(u[0]));
    assert s + [Lowest(b[0])] + [] == s + [Lowest(b[0])];
  }

  lemma MoveLeftBranch(
      env: Env, s: seq<Key>, a: seq<Tree>, m: Key, u: seq<Key>, b: seq<Tree>, d: nat, lo: Bound, hi: Bound)
    requires KidsOk(env, s, a, d, lo, At(m)) && KidsOk(env, u, b, d, At(m), hi) && Above(lo, m) && Below(m, hi)
    requires |a| == |s| + 1 && |b| == |u| + 1 && |b| > 2
    requires SLOT0 + SepsUsed(env, s) + BranchSize(env, Lowest(b[0])) <= PMax(env) &&
      SLOT0 + SepsUsed(env, u) <= PMax(env)
    ensures GrownOk(env, Two(Branch(s + [Lowest(b[0])], a + [b[0]]), u[0], Branch(u[1..], b[1..])), d + 1, lo, hi)
    ensures Flat(a + [b[0]]) + Flat(b[1..]) == Flat(a) + Flat(b)
  {
    hide KidsOk, Lowest, Valid, Flat;
    var w := Lowest(b[0]);
    SepsWithout(env, u, 0);
    MoveLeftKids(env, s, a, m, u, b, d, lo, hi);
    SepsUsedConcat(env, s, [w]);
    assert SepsUsed(env, [w]) == BranchSize(env, w);
    ValidBranch(env, s + [w], a + [b[0]], d, lo, At(u[0]));
    ValidBranch(env, u[1..], b[1..], d, At(u[0]), hi);
  }

  lemma MoveRightKids(
      env: Env, s: seq<Key>, a: seq<Tree>, m: Key, u: seq<Key>, b: seq<Tree>, d: nat, lo: Bound, hi: Bound)
    requires KidsOk(env, s, a, d, lo, At(m)) && KidsOk(env, u, b, d, At(m), hi) && Above(lo, m) && Below(m, hi)
    requires |a| == |s| + 1 && |a| > 1
    ensures var n := |s| - 1;
      && KidsOk(env, s[..n], a[..n + 1], d, lo, At(s[n])) &&
        KidsOk(env, [Lowest(b[0])] + u, [a[n + 1]] + b, d, At(s[n]), hi)
      && Above(lo, s[n]) && Below(s[n], hi)
      && Flat(a[..n + 1]) + Flat([a[n + 1]] + b) == Flat(a) + Flat(b)
  {
    hide KidsOk, Flat, Lowest;
    var n := |s| - 1;
    Cut(env, s, a, d, lo, At(m), n + 1);
    assert s[n + 1..] == [] && a[n + 1..] == [a[n + 1]];
    MergeKids(env, [], [a[n + 1]], m, u, b, d, At(s[n]), hi);
    assert [] + [Lowest(b[0])] + u == [Lowest(b[0])] + u;
  }

  lemma MoveRightBranch(
      env: Env, s: seq<Key>, a: seq<Tree>, m: Key, u: seq<Key>, b: seq<Tree>, d: nat, lo: Bound, hi: Bound)
    requires KidsOk(env, s, a, d, lo, At(m)) && KidsOk(env, u, b, d, At(m), hi) && Above(lo, m) && Below(m, hi)
    requires |a| == |s| + 1 && |b| == |u| + 1 && |a| > 2
    requires SLOT0 + SepsUsed(env, u) + BranchSize(env, Lowest(b[0])) <= PMax(env) &&
      SLOT0 + SepsUsed(env, s) <= PMax(env)
    ensures var n := |s| - 1;
      && GrownOk(env, Two(Branch(s[..n], a[..n + 1]), s[n], Branch([Lowest(b[0])] + u, [a[n + 1]] + b)), d + 1, lo, hi)
      && Flat(a[..n + 1]) + Flat([a[n + 1]] + b) == Flat(a) + Flat(b)
  {
    hide KidsOk, Lowest, Valid, Flat;
    var n, w := |s| - 1, Lowest(b[0]);
    MoveRightKids(env, s, a, m, u, b, d, lo, hi);
    assert ([w] + u)[1..] == u;
    SepsWithout(env, s, n);
    ValidBranch(env, s[..n], a[..n + 1], d, lo, At(s[n]));
    ValidBranch(env, [w] + u, [a[n + 1]] + b, d, At(s[n]), hi);
  }

  lemma MoveLeftOk(env: Env, l: Tree, m: Key, r: Tree, d: nat, lo: Bound, hi: Bound)
    requires EnvOk(env) && WeakPair(env, l, m, r, d, lo, hi) && Underfull(env, l) && Rich(env, r)
    ensures var (l', m', r') := MoveLeft(l, r);
      GrownOk(env, Two(l', m', r'), d, lo, hi) && Items(l') + Items(r') == Items(l) + Items(r)
  {
    WeakShape(env, l, d, lo, At(m));
    WeakShape(env, r, d, At(m), hi);
    UnderfullIsSmall(env, l);
    hide KidsOk, Valid, GrownOk, Underfull, EnvOk;
    match l
    case Leaf(a) =>
      NodeSizes(env, r.es[0], 0);
      MoveLeftLeaf(env, a, m, r.es, lo, hi);
    case Branch(s, a) =>
      NodeSizes(env, Entry(0, []), Lowest(r));
      MoveLeftBranch(env, s, a, m, r.seps, r.kids, d - 1, lo, hi);
  }

  lemma MoveRightOk(env: Env, l: Tree, m: Key, r: Tree, d: nat, lo: Bound, hi: Bound)
    requires EnvOk(env) && WeakPair(env, l, m, r, d, lo, hi) && Rich(env, l) && Underfull(env, r)
    ensures var (l', m', r') := MoveRight(l, r);
      GrownOk(env, Two(l', m', r'), d, lo, hi) && Items(l') + Items(r') == Items(l) + Items(r)
  {
    WeakShape(env, l, d, lo, At(m));
    WeakShape(env, r, d, At(m), hi);
    UnderfullIsSmall(env, r);
    hide KidsOk, Valid, GrownOk, Underfull, EnvOk;
    match l
    case Leaf(a) =>
      NodeSizes(env, a[|a| - 1], 0);
      MoveRightLeaf(env, a, m, r.es, lo, hi);
    case Branch(s, a) =>
      NodeSizes(env, Entry(0, []), Lowest(r));
      MoveRightBranch(env, s, a, m, r.seps, r.kids, d - 1, lo, hi);
  }

  // ---------------------------------------------------------------- rebalancing a child

  /** Children i and i + 1 and the separator between them give way to others. */
  lemma ReplacePair(
      env: Env, seps: seq<Key>, kids: seq<Tree>, i: nat, l: Tree, m: Key, r: Tree, d: nat, lo: Bound, hi: Bound)
    requires KidsOk(env, seps, kids, d, lo, hi) && |kids| == |seps| + 1 && i < |seps|
    requires GrownOk(env, Two(l, m, r), d, KidLo(seps, lo, i), KidHi(seps, hi, i + 1))
    ensures KidsOk(env, seps[i := m], kids[i := l][i + 1 := r], d, lo, hi)
    ensures Flat(kids[i := l][i + 1 := r]) == Flat(kids[..i]) + (Items(l) + Items(r)) + Flat(kids[i + 2..])
  {
    TwoKids(env, l, m, r, d, KidLo(seps, lo, i), KidHi(seps, hi, i + 1));
    hide KidsOk, Valid, Flat;
    Splice(env, seps, kids, d, lo, hi, i, i + 2, [m], [l, r]);
    assert seps[..i] + [m] + seps[i + 1..] == seps[i := m];
    assert kids[..i] + [l, r] + kids[i + 2..] == kids[i := l][i + 1 := r];
  }

  /** mdb_update_key compares even key sizes, which is what the page use changes by. */
  lemma UpdateSepSizes(env: Env, seps: seq<Key>, i: nat, m: Key)
    requires EnvOk(env) && i < |seps| && SLOT0 + SepsUsed(env, seps) <= PMax(env)
    ensures SLOT0 + SepsUsed(env, seps[i := m][..i]) + SepsUsed(env, seps[i := m][i + 1..]) <= PMax(env)
    ensures var delta := Even(env.ksize(m)) - Even(env.ksize(seps[i]));
      delta > 0 && PMax(env) - (SLOT0 + SepsUsed(env, seps)) < delta <==>
        SLOT0 + SepsUsed(env, seps[i := m]) > PMax(env)
  {
    SepsWithout(env, seps, i);
    SepsWithout(env, seps[i := m], i);
    assert seps[i := m][..i] == seps[..i] && seps[i := m][i + 1..] == seps[i + 1..];
  }

  /** The separator before child i + 1 becomes `m`; the branch may have to split. */
  lemma UpdateSepOk(env: Env, seps: seq<Key>, kids: seq<Tree>, i: nat, m: Key, d: nat, lo: Bound, hi: Bound)
    requires EnvOk(env) && |kids| == |seps| + 1 && i < |seps| && SLOT0 + SepsUsed(env, seps) <= PMax(env)
    requires KidsOk(env, seps[i := m], kids, d, lo, hi)
    ensures GrownOk(env, UpdateSep(env, seps, kids, i, m), d + 1, lo, hi)
    ensures UpdateSep(env, seps, kids, i, m).PageFull? || GrownItems(UpdateSep(env, seps, kids, i, m)) == Flat(kids)
    ensures UpdateSep(env, seps, kids, i, m).PageFull? ==> |kids| > 20 && i + 1 < |kids| - 1
  {
    hide KidsOk, Valid;
    UpdateSepSizes(env, seps, i, m);
    if SLOT0 + SepsUsed(env, seps[i := m]) <= PMax(env) {
      ValidBranch(env, seps[i := m], kids, d, lo, hi);
    } else {
      SplitBranchOk(env, seps[i := m], kids, i + 1, d, lo, hi);
      SplitBranchFits(env, seps[i := m], kids, i + 1);
    }
  }

  /** What a deletion below may leave: a page that fits, but may lack one key. */
  ghost predicate ShrunkOk(env: Env, s: Shrunk, d: nat, lo: Bound, hi: Bound) {
    match s
    case NotFound => true
    case Done(One(t), true) => Weak(env, t, d, lo, hi) && NumKeys(t) >= MinKeys(t) - 1
    case Done(g, _) => GrownOk(env, g, d, lo, hi)
  }

  /** Child i borrows from its neighbour. */
  lemma BorrowOk(env: Env, seps: seq<Key>, kids: seq<Tree>, i: nat, c: Tree, d: nat, lo: Bound, hi: Bound)
    requires EnvOk(env) && KidsOk(env, seps, kids, d, lo, hi) && SLOT0 + SepsUsed(env, seps) <= PMax(env)
    requires |kids| == |seps| + 1 && i < |kids| && |kids| >= 2
    requires Weak(env, c, d, KidLo(seps, lo, i), KidHi(seps, hi, i)) && Underfull(env, c)
    requires Rich(env, kids[if i == 0 then 1 else i - 1])
    ensures var s := Rebalance(env, seps, kids, i, c);
      && s.Done? && !s.check && GrownOk(env, s.g, d + 1, lo, hi)
      && (s.g.PageFull? || GrownItems(s.g) == Flat(kids[..i]) + Items(c) + Flat(kids[i + 1..]))
      && (s.g.PageFull? ==> CrowdedBranch(kids, i))
  {
    var j := if i == 0 then 0 else i - 1;
    var l, r := if i == 0 then c else kids[j], if i == 0 then kids[1] else c;
    NeighbourPair(env, seps, kids, i, c, d, lo, hi);
    hide KidsOk, Valid, Weak, Flat, Items, Rich, Underfull, WeakPair, UpdateSep, EnvOk, MoveLeft, MoveRight;
    if i == 0 {
      MoveLeftOk(env, l, seps[j], r, d, KidLo(seps, lo, j), KidHi(seps, hi, j + 1));
    } else {
      MoveRightOk(env, l, seps[j], r, d, KidLo(seps, lo, j), KidHi(seps, hi, j + 1));
    }
    var (l', m, r') := if i == 0 then MoveLeft(l, r) else MoveRight(l, r);
    ReplacePair(env, seps, kids, j, l', m, r', d, lo, hi);
    UpdateSepOk(env, seps, kids[j := l'][j + 1 := r'], j, m, d, lo, hi);
  }

  /** Child i and the neighbour that rebalancing looks at. */
  lemma NeighbourPair(env: Env, seps: seq<Key>, kids: seq<Tree>, i: nat, c: Tree, d: nat, lo: Bound, hi: Bound)
    requires KidsOk(env, seps, kids, d, lo, hi) && |kids| == |seps| + 1 && i < |kids| && |kids| >= 2
    requires Weak(env, c, d, KidLo(seps, lo, i), KidHi(seps, hi, i))
    ensures var j := if i == 0 then 0 else i - 1;
      var l, r := if i == 0 then c else kids[j], if i == 0 then kids[1] else c;
      && WeakPair(env, l, seps[j], r, d, KidLo(seps, lo, j), KidHi(seps, hi, j + 1))
      && NumKeys(kids[if i == 0 then 1 else j]) >= MinKeys(kids[if i == 0 then 1 else j])
      && Flat(kids[..j]) + (Items(l) + Items(r)) + Flat(kids[j + 2..]) ==
        Flat(kids[..i]) + Items(c) + Flat(kids[i + 1..])
  {
    var n := if i == 0 then 1 else i - 1;
    assert Valid(env, kids[n], d, KidLo(seps, lo, n), KidHi(seps, hi, n));
    assert Above(KidLo(seps, lo, if i == 0 then 0 else i - 1), seps[if i == 0 then 0 else i - 1]);
    assert Below(seps[if i == 0 then 0 else i - 1], KidHi(seps, hi, if i == 0 then 1 else i));
    hide Weak, KidsOk, Flat, Items;
    if i == 0 {
      FlatFirst(kids, 1);
    } else {
      FlatSnoc(kids, i - 1);
    }
  }

  lemma FlatFirst(kids: seq<Tree>, i: nat)
    requires i < |kids|
    ensures Flat(kids[i..]) == Items(kids[i]) + Flat(kids[i + 1..])
  {
    assert kids[i..][1..] == kids[i + 1..];
  }

  /** Children j and j + 1 merged: a branch that may lack a key, with the same entries. */
  lemma MergePair(env: Env, seps: seq<Key>, kids: seq<Tree>, j: nat, l: Tree, r: Tree, d: nat, lo: Bound, hi: Bound)
    requires EnvOk(env) && KidsOk(env, seps, kids, d, lo, hi) && SLOT0 + SepsUsed(env, seps) <= PMax(env)
    requires |kids| == |seps| + 1 && j < |seps|
    requires WeakPair(env, l, seps[j], r, d, KidLo(seps, lo, j), KidHi(seps, hi, j + 1)) && Shaped(l) && Shaped(r) &&
      (l.Leaf? <==> r.Leaf?)
    requires Used(env, l) + MergeNeed(env, r) <= PMax(env) && NumKeys(l) + NumKeys(r) >= MinKeys(l)
    ensures var t := Joined(seps, kids, j, Merge(l, r));
      && Weak(env, t, d + 1, lo, hi) && NumKeys(t) >= 1
      && Items(t) == Flat(kids[..j]) + (Items(l) + Items(r)) + Flat(kids[j + 2..])
  {
    hide KidsOk, Valid, Weak, Flat, WeakPair, EnvOk, Merge, MergeNeed, Used, SepsUsed;
    MergeOk(env, l, seps[j], r, d, KidLo(seps, lo, j), KidHi(seps, hi, j + 1));
    JoinKids(env, seps, kids, j, Merge(l, r), d, lo, hi);
  }

  /** Child i is merged with its neighbour. */
  lemma MergeNeighbourOk(env: Env, seps: seq<Key>, kids: seq<Tree>, i: nat, c: Tree, d: nat, lo: Bound, hi: Bound)
    requires EnvOk(env) && KidsOk(env, seps, kids, d, lo, hi) && SLOT0 + SepsUsed(env, seps) <= PMax(env)
    requires |kids| == |seps| + 1 && i < |kids| && |kids| >= 2
    requires Weak(env, c, d, KidLo(seps, lo, i), KidHi(seps, hi, i)) && Underfull(env, c)
    requires !Rich(env, kids[if i == 0 then 1 else i - 1])
    ensures var s := Rebalance(env, seps, kids, i, c);
      && s.Done? && s.check && s.g.One? && ShrunkOk(env, s, d + 1, lo, hi)
      && GrownItems(s.g) == Flat(kids[..i]) + Items(c) + Flat(kids[i + 1..])
  {
    hide KidsOk, Valid, Weak, Flat, Items, Rich, Underfull, EnvOk, Merge, MergeNeed, Used, SepsUsed;
    hide KidLo, KidHi;
    NeighbourPair(env, seps, kids, i, c, d, lo, hi);
    WeakShape(env, c, d, KidLo(seps, lo, i), KidHi(seps, hi, i));
    if i == 0 {
      WeakShape(env, kids[1], d, At(seps[0]), KidHi(seps, hi, 1));
      hide Joined;
      RebalanceHasRoom(env, c, kids[1], 0);
      MergePair(env, seps, kids, 0, c, kids[1], d, lo, hi);
    } else {
      WeakShape(env, kids[i - 1], d, KidLo(seps, lo, i - 1), At(seps[i - 1]));
      hide Joined;
      RebalanceHasRoom(env, c, kids[i - 1], 0);
      MergePair(env, seps, kids, i - 1, kids[i - 1], c, d, lo, hi);
    }
  }

  /** Children j and j + 1 give way to one. */
  lemma JoinKids(env: Env, seps: seq<Key>, kids: seq<Tree>, j: nat, t: Tree, d: nat, lo: Bound, hi: Bound)
    requires KidsOk(env, seps, kids, d, lo, hi) && |kids| == |seps| + 1 && j < |seps| &&
      SLOT0 + SepsUsed(env, seps) <= PMax(env)
    requires Valid(env, t, d, KidLo(seps, lo, j), KidHi(seps, hi, j + 1))
    ensures var kids' := kids[..j] + [t] + kids[j + 2..];
      && Weak(env, Branch(seps[..j] + seps[j + 1..], kids'), d + 1, lo, hi)
      && Flat(kids') == Flat(kids[..j]) + Items(t) + Flat(kids[j + 2..])
  {
    OneKid(env, t, d, KidLo(seps, lo, j), KidHi(seps, hi, j + 1));
    hide KidsOk, Valid, Flat;
    Splice(env, seps, kids, d, lo, hi, j, j + 2, [], [t]);
    assert seps[..j] + [] + seps[j + 1..] == seps[..j] + seps[j + 1..];
    SepsWithout(env, seps, j);
    SepsUsedConcat(env, seps[..j], seps[j + 1..]);
  }

  lemma RebalanceOk(env: Env, seps: seq<Key>, kids: seq<Tree>, i: nat, c: Tree, d: nat, lo: Bound, hi: Bound)
    requires EnvOk(env) && KidsOk(env, seps, kids, d, lo, hi) && SLOT0 + SepsUsed(env, seps) <= PMax(env)
    requires |kids| == |seps| + 1 && i < |kids| && |kids| >= 2
    requires Weak(env, c, d, KidLo(seps, lo, i), KidHi(seps, hi, i))
    ensures var s := Rebalance(env, seps, kids, i, c);
      && s.Done? && ShrunkOk(env, s, d + 1, lo, hi)
      && (s.g.PageFull? || GrownItems(s.g) == Flat(kids[..i]) + Items(c) + Flat(kids[i + 1..]))
      && (s.g.PageFull? ==> CrowdedBranch(kids, i))
  {
    if !Underfull(env, c) {
      assert Valid(env, c, d, KidLo(seps, lo, i), KidHi(seps, hi, i));
      hide KidsOk, Weak, Flat;
      ReplaceKid(env, seps, kids, i, c, d, lo, hi);
      ValidBranch(env, seps, kids[i := c], d, lo, hi);
    } else if Rich(env, kids[if i == 0 then 1 else i - 1]) {
      BorrowOk(env, seps, kids, i, c, d, lo, hi);
    } else {
      MergeNeighbourOk(env, seps, kids, i, c, d, lo, hi);
    }
  }

  // ---------------------------------------------------------------- delete

  ghost predicate Has(es: seq<Entry>, k: Key) {
    exists i :: 0 <= i < |es| && es[i].key == k
  }

  lemma HasKeyOk(es: seq<Entry>, k: Key)
    requires SortedEntries(es)
    ensures HasKey(es, k) <==> Has(es, k)
  {
    if Has(es, k) {
      var i :| 0 <= i < |es| && es[i].key == k;
      var j := EntryIndex(es, k);
      assert j <= i;
      assert es[j].key >= k;
      assert j == i;
    }
  }

  /** The key can only be below the child whose range holds it. */
  lemma HasBelow(env: Env, seps: seq<Key>, kids: seq<Tree>, k: Key, d: nat, lo: Bound, hi: Bound)
    requires KidsOk(env, seps, kids, d, lo, hi) && |kids| == |seps| + 1 && AtLeast(lo, k) && Below(k, hi)
    ensures Has(Flat(kids), k) <==> Has(Items(kids[KidIndex(seps, k)]), k)
  {
    var i := KidIndex(seps, k);
    KidItems(kids, i);
    KidIndexOk(seps, k, lo, hi);
    var a, b, c := Flat(kids[..i]), Items(kids[i]), Flat(kids[i + 1..]);
    if i > 0 {
      CutLeft(env, seps, kids, d, lo, hi, i);
      FlatOk(env, seps[..i - 1], kids[..i], d, lo, At(seps[i - 1]));
    }
    if i < |seps| {
      CutRight(env, seps, kids, d, lo, hi, i + 1);
      FlatOk(env, seps[i + 1..], kids[i + 1..], d, At(seps[i]), hi);
    }
    hide KidsOk, Flat, Items, KidIndex;
    HasMiddle(a, b, c, k);
  }

  lemma HasMiddle(a: seq<Entry>, b: seq<Entry>, c: seq<Entry>, k: Key)
    ensures Has(a + b + c, k) <==> Has(a, k) || Has(b, k) || Has(c, k)
  {
    if Has(a, k) {
      var i :| 0 <= i < |a| && a[i].key == k;
      assert (a + b + c)[i].key == k;
    }
    if Has(b, k) {
      var i :| 0 <= i < |b| && b[i].key == k;
      assert (a + b + c)[|a| + i].key == k;
    }
    if Has(c, k) {
      var i :| 0 <= i < |c| && c[i].key == k;
      assert (a + b + c)[|a| + |b| + i].key == k;
    }
    if Has(a + b + c, k) {
      var i :| 0 <= i < |a + b + c| && (a + b + c)[i].key == k;
      if |a| <= i < |a| + |b| { assert b[i - |a|].key == k; }
      if |a| + |b| <= i { assert c[i - |a| - |b|].key == k; }
    }
  }

  /** Some branch on the way to `k` has twenty children or more, and the way does not lead to its last one. */
  predicate CrowdedBranches(t: Tree, k: Key) {
    match t
    case Leaf(_) => false
    case Branch(seps, kids) =>
      var i := KidIndex(seps, k);
      i < |kids| && (CrowdedBranch(kids, i) || CrowdedBranches(kids[i], k))
  }

  /**
    A deletion finds the key exactly when it is there, keeps the tree well-formed and
    removes just that entry; it can fail only where a branch is split without searching for the split point.
   */
  lemma {:induction false} DeleteOk(env: Env, t: Tree, k: Key, d: nat, lo: Bound, hi: Bound)
    requires EnvOk(env) && Weak(env, t, d, lo, hi) && NumKeys(t) >= MinKeys(t) && AtLeast(lo, k) && Below(k, hi)
    ensures var s := Delete(env, t, k);
      && ShrunkOk(env, s, d, lo, hi)
      && (s.NotFound? <==> !Has(Items(t), k))
      && (s.Done? && s.g.PageFull? ==> CrowdedBranches(t, k))
      && (s.Done? && !s.g.PageFull? ==> Removed(Items(t), GrownItems(s.g), k))
    decreases t
  {
    match t
    case Leaf(es) => DeleteEntry(env, es, k, lo, hi);
    case Branch(seps, kids) =>
      var i := KidIndex(seps, k);
      KidIndexOk(seps, k, lo, hi);
      assert Valid(env, kids[i], d - 1, KidLo(seps, lo, i), KidHi(seps, hi, i));
      HasBelow(env, seps, kids, k, d - 1, lo, hi);
      DeleteOk(env, kids[i], k, d - 1, KidLo(seps, lo, i), KidHi(seps, hi, i));
      hide Valid, Weak, KidsOk, KidIndex, EnvOk, AtLeast, Below, KidLo, KidHi, Has;
      if Delete(env, kids[i], k).Done? { DeletedBelow(env, seps, kids, i, k, Delete(env, kids[i], k), d - 1, lo, hi); }
  }

  lemma DeletedBelow(env: Env, seps: seq<Key>, kids: seq<Tree>, i: nat, k: Key, s: Shrunk, d: nat, lo: Bound, hi: Bound)
    requires EnvOk(env) && Weak(env, Branch(seps, kids), d + 1, lo, hi) && |kids| == |seps| + 1 && i < |kids| &&
      |kids| >= 2
    requires s.Done? && ShrunkOk(env, s, d, KidLo(seps, lo, i), KidHi(seps, hi, i))
    requires s.g.PageFull? || Removed(Items(kids[i]), GrownItems(s.g), k)
    ensures var s' := AfterKid(env, seps, kids, i, s);
      && s'.Done? && ShrunkOk(env, s', d + 1, lo, hi)
      && (s'.g.PageFull? ==> s.g.PageFull? || CrowdedBranch(kids, i))
      && (!s'.g.PageFull? ==> Removed(Flat(kids), GrownItems(s'.g), k))
  {
    if s.check && s.g.One? {
      RebalanceOk(env, seps, kids, i, s.g.t, d, lo, hi);
    } else {
      SetKidOk(env, seps, kids, i, s.g, d, lo, hi);
    }
    if !s.g.PageFull? {
      KidItems(kids, i);
      RemovedWithin(Flat(kids[..i]), Items(kids[i]), GrownItems(s.g), Flat(kids[i + 1..]), k);
    }
  }

  lemma DeleteEntry(env: Env, es: seq<Entry>, k: Key, lo: Bound, hi: Bound)
    requires Weak(env, Leaf(es), 0, lo, hi) && es != []
    ensures HasKey(es, k) <==> Has(es, k)
    ensures Weak(env, Leaf(Without(es, k)), 0, lo, hi)
    ensures HasKey(es, k) ==> Removed(es, Without(es, k), k)
  {
    HasKeyOk(es, k);
    if HasKey(es, k) {
      var i := EntryIndex(es, k);
      hide LeafUsed, EntryIndex;
      LeafWithout(env, es, i);
      LeafUsedConcat(env, es[..i], es[i + 1..]);
      assert RemovedAt(es, Without(es, k), k, i);
      SortedWithout(es, i, lo, hi);
    }
  }

  lemma SortedWithout(es: seq<Entry>, i: nat, lo: Bound, hi: Bound)
    requires SortedEntries(es) && EntriesWithin(es, lo, hi) && i < |es|
    ensures SortedEntries(es[..i] + es[i + 1..]) && EntriesWithin(es[..i] + es[i + 1..], lo, hi)
  {}
}
