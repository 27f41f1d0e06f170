/** Every page operation keeps the tree well-formed and changes its contents as asked. */
module BTreeProofs {
  import opened BTree
  import opened BTreeShape
  import opened SplitPoint
  import opened BTreeOps

  // ---------------------------------------------------------------- contents

  /** `after` is `before` with `e` stored: inserted, or in place of the entry with its key. */
  ghost predicate Upserted(before: seq<Entry>, after: seq<Entry>, e: Entry) {
    exists i: nat, j: nat :: UpsertedAt(before, after, e, i, j)
  }

  ghost predicate UpsertedAt(before: seq<Entry>, after: seq<Entry>, e: Entry, i: nat, j: nat) {
    && i <= j <= |before| && j <= i + 1 && (j == i + 1 ==> before[i].key == e.key)
    && after == before[..i] + [e] + before[j..]
  }

  ghost predicate Removed(before: seq<Entry>, after: seq<Entry>, k: Key) {
    exists i: nat :: RemovedAt(before, after, k, i)
  }

  ghost predicate RemovedAt(before: seq<Entry>, after: seq<Entry>, k: Key, i: nat) {
    i < |before| && before[i].key == k && after == before[..i] + before[i + 1..]
  }

  lemma UpsertedWithin(a: seq<Entry>, before: seq<Entry>, after: seq<Entry>, b: seq<Entry>, e: Entry)
    requires Upserted(before, after, e)
    ensures Upserted(a + before + b, a + after + b, e)
  {
    var i: nat, j: nat :| UpsertedAt(before, after, e, i, j);
    var w := a + before + b;
    MiddleSlices(a, before, b, i, j);
    assert a + (before[..i] + [e] + before[j..]) + b == (a + before[..i]) + [e] + (before[j..] + b);
    assert UpsertedAt(w, a + after + b, e, |a| + i, |a| + j);
  }

  lemma RemovedWithin(a: seq<Entry>, before: seq<Entry>, after: seq<Entry>, b: seq<Entry>, k: Key)
    requires Removed(before, after, k)
    ensures Removed(a + before + b, a + after + b, k)
  {
    var i: nat :| RemovedAt(before, after, k, i);
    var w := a + before + b;
    MiddleSlices(a, before, b, i, i + 1);
    assert a + (before[..i] + before[i + 1..]) + b == (a + before[..i]) + (before[i + 1..] + b);
    assert RemovedAt(w, a + after + b, k, |a| + i);
  }

  /** The entries of a tree are sorted and within its range. */
  lemma {:induction false} ItemsOk(env: Env, t: Tree, d: nat, lo: Bound, hi: Bound)
    requires Weak(env, t, d, lo, hi)
    ensures SortedEntries(Items(t)) && EntriesWithin(Items(t), lo, hi)
    ensures t.Branch? || NumKeys(t) > 0 ==> Items(t) != []
    decreases t, 0
  {
    match t
    case Leaf(_) =>
    case Branch(seps, kids) => FlatOk(env, seps, kids, d - 1, lo, hi);
  }

  lemma {:induction false} FlatOk(env: Env, seps: seq<Key>, kids: seq<Tree>, d: nat, lo: Bound, hi: Bound)
    requires KidsOk(env, seps, kids, d, lo, hi)
    ensures SortedEntries(Flat(kids)) && EntriesWithin(Flat(kids), lo, hi) && Flat(kids) != []
    decreases kids, 1
  {
    assert Valid(env, kids[0], d, KidLo(seps, lo, 0), KidHi(seps, hi, 0));
    ItemsOk(env, kids[0], d, KidLo(seps, lo, 0), KidHi(seps, hi, 0));
    if |kids| == 1 {
      assert Flat(kids[1..]) == [];
    } else {
      CutRight(env, seps, kids, d, lo, hi, 1);
      FlatOk(env, seps[1..], kids[1..], d, At(seps[0]), hi);
      assert Above(lo, seps[0]) && Below(seps[0], hi);
      SortedConcat(Items(kids[0]), Flat(kids[1..]), lo, seps[0], hi);
    }
  }

  lemma SortedConcat(a: seq<Entry>, b: seq<Entry>, lo: Bound, m: Key, hi: Bound)
    requires SortedEntries(a) && SortedEntries(b)
    requires EntriesWithin(a, lo, At(m)) && EntriesWithin(b, At(m), hi)
    requires Above(lo, m) && Below(m, hi)
    ensures SortedEntries(a + b) && EntriesWithin(a + b, lo, hi)
  {}

  // ---------------------------------------------------------------- replacing neighbours in a branch

  /** Children `i .. j` give way to others for the same range of keys. */
  lemma Splice(
      env: Env, seps: seq<Key>, kids: seq<Tree>, d: nat, lo: Bound, hi: Bound, i: nat, j: nat, s: seq<Key>,
      ks: seq<Tree>)
    requires KidsOk(env, seps, kids, d, lo, hi) && i < j <= |kids|
    requires KidsOk(env, s, ks, d, KidLo(seps, lo, i), KidHi(seps, hi, j - 1))
    ensures KidsOk(env, seps[..i] + s + seps[j - 1..], kids[..i] + ks + kids[j..], d, lo, hi)
    ensures Flat(kids) == Flat(kids[..i]) + Flat(kids[i..j]) + Flat(kids[j..])
    ensures Flat(kids[..i] + ks + kids[j..]) == Flat(kids[..i]) + Flat(ks) + Flat(kids[j..])
  {
    hide Flat, Valid;
    SpliceFlat(kids, i, j);
    FlatConcat(kids[..i] + ks, kids[j..]);
    FlatConcat(kids[..i], ks);
    SpliceTail(env, seps, kids, d, lo, hi, i, j, s, ks);
    var s1, k1 := s + seps[j - 1..], ks + kids[j..];
    assert seps[..i] + s + seps[j - 1..] == seps[..i] + s1 && kids[..i] + ks + kids[j..] == kids[..i] + k1;
    if i == 0 {
      assert seps[..0] + s1 == s1 && kids[..0] + k1 == k1;
    } else {
      CutLeft(env, seps, kids, d, lo, hi, i);
      Glue(env, seps[..i - 1], kids[..i], seps[i - 1], s1, k1, d, lo, hi);
      assert seps[..i - 1] + [seps[i - 1]] + s1 == seps[..i] + s1;
    }
  }

  lemma SpliceTail(
      env: Env, seps: seq<Key>, kids: seq<Tree>, d: nat, lo: Bound, hi: Bound, i: nat, j: nat, s: seq<Key>,
      ks: seq<Tree>)
    requires KidsOk(env, seps, kids, d, lo, hi) && i < j <= |kids|
    requires KidsOk(env, s, ks, d, KidLo(seps, lo, i), KidHi(seps, hi, j - 1))
    ensures KidsOk(env, s + seps[j - 1..], ks + kids[j..], d, KidLo(seps, lo, i), hi)
  {
    if j == |kids| {
      assert s + seps[j - 1..] == s && ks + kids[j..] == ks;
    } else {
      CutRight(env, seps, kids, d, lo, hi, j);
      Glue(env, s, ks, seps[j - 1], seps[j..], kids[j..], d, KidLo(seps, lo, i), hi);
      assert s + [seps[j - 1]] + seps[j..] == s + seps[j - 1..];
    }
  }

  lemma SpliceFlat(kids: seq<Tree>, i: nat, j: nat)
    requires i <= j <= |kids|
    ensures Flat(kids) == Flat(kids[..i]) + Flat(kids[i..j]) + Flat(kids[j..])
  {
    hide Flat;
    CutTwice(kids, i, j);
    FlatConcat(kids[..i] + kids[i..j], kids[j..]);
    FlatConcat(kids[..i], kids[i..j]);
  }

  // ---------------------------------------------------------------- splitting

  /** Outcome of growing a page for keys lo .. hi. */
  ghost predicate GrownOk(env: Env, g: Grown, d: nat, lo: Bound, hi: Bound) {
    match g
    case One(t) => Valid(env, t, d, lo, hi)
    case Two(l, m, r) => Valid(env, l, d, lo, At(m)) && Valid(env, r, d, At(m), hi) && Above(lo, m) && Below(m, hi)
    case PageFull => true
  }

  function GrownItems(g: Grown): seq<Entry> {
    match g
    case One(t) => Items(t)
    case Two(l, _, r) => Items(l) + Items(r)
    case PageFull => []
  }

  lemma SplitLeafHalves(env: Env, es: seq<Entry>, s: nat)
    requires s <= |es|
    ensures Sum(LeafSizes(env, es)[..s]) == LeafUsed(env, es[..s])
    ensures Sum(LeafSizes(env, es)[s..]) == LeafUsed(env, es[s..])
  {
    assert LeafSizes(env, es)[..s] == LeafSizes(env, es[..s]);
    assert LeafSizes(env, es)[s..] == LeafSizes(env, es[s..]);
  }

  lemma SplitLeafOk(env: Env, es: seq<Entry>, newindx: nat, lo: Bound, hi: Bound)
    requires newindx < |es| && SortedEntries(es) && EntriesWithin(es, lo, hi)
    ensures GrownOk(env, SplitLeaf(env, es, newindx), 0, lo, hi)
    ensures SplitLeaf(env, es, newindx).PageFull? || GrownItems(SplitLeaf(env, es, newindx)) == es
  {
    hide SplitIndex, LeafUsed, SortedEntries, EntriesWithin;
    var g := SplitLeaf(env, es, newindx);
    if g.Two? {
      var s := |g.l.es|;
      SortedCut(es, s, lo, hi);
      ValidLeaf(env, es[..s], lo, At(g.sep));
      ValidLeaf(env, es[s..], At(g.sep), hi);
    }
  }

  lemma SortedCut(es: seq<Entry>, i: nat, lo: Bound, hi: Bound)
    requires SortedEntries(es) && EntriesWithin(es, lo, hi) && 0 < i < |es|
    ensures SortedEntries(es[..i]) && EntriesWithin(es[..i], lo, At(es[i].key))
    ensures SortedEntries(es[i..]) && EntriesWithin(es[i..], At(es[i].key), hi)
    ensures Above(lo, es[i].key) && Below(es[i].key, hi)
    ensures es[..i] + es[i..] == es
  {
    assert es[0].key < es[i].key && AtLeast(lo, es[0].key);
  }

  /** A leaf that overflows has at least three entries, and none takes more than half a page. */
  lemma LeafHasMany(env: Env, es: seq<Entry>)
    requires EnvOk(env) && LeafUsed(env, es) > PMax(env)
    ensures |es| >= 3
    ensures forall i :: 0 <= i < |es| ==> LeafSizes(env, es)[i] <= PMax(env) / 2
  {
    var sizes, half := LeafSizes(env, es), PMax(env) / 2;
    forall i | 0 <= i < |es| ensures sizes[i] <= half { NodeSizes(env, es[i], 0); }
    SumCoversCount(sizes, half);
  }

  /** A leaf that fitted before the insertion splits in two when the split point is searched for. */
  lemma SplitLeafFits(env: Env, es: seq<Entry>, newindx: nat)
    requires EnvOk(env) && newindx < |es|
    requires LeafUsed(env, es[..newindx]) + LeafUsed(env, es[newindx + 1..]) <= PMax(env) < LeafUsed(env, es)
    ensures Searched(|es| - 1, LeafSize(env, es[newindx]), newindx, PMax(env)) ==> SplitLeaf(env, es, newindx).Two?
  {
    var sizes, pmax := LeafSizes(env, es), PMax(env);
    LeafHasMany(env, es);
    if Searched(|es| - 1, LeafSize(env, es[newindx]), newindx, pmax) {
      LeafWithout(env, es, newindx);
      SplitFits(sizes, newindx, pmax);
      SplitLeafHalves(env, es, SplitIndex(sizes, newindx, pmax));
    }
  }

  lemma LeafWithout(env: Env, es: seq<Entry>, i: nat)
    requires i < |es|
    ensures LeafUsed(env, es) == LeafUsed(env, es[..i]) + LeafSize(env, es[i]) + LeafUsed(env, es[i + 1..])
  {
    LeafUsed3(env, es[..i], es[i], es[i + 1..]);
    assert es == es[..i] + [es[i]] + es[i + 1..];
  }

  lemma SepsWithout(env: Env, seps: seq<Key>, i: nat)
    requires i < |seps|
    ensures SepsUsed(env, seps) == SepsUsed(env, seps[..i]) + BranchSize(env, seps[i]) + SepsUsed(env, seps[i + 1..])
  {
    SepsUsed3(env, seps[..i], seps[i], seps[i + 1..]);
    assert seps == seps[..i] + [seps[i]] + seps[i + 1..];
  }

  lemma SplitBranchOk(env: Env, seps: seq<Key>, kids: seq<Tree>, newindx: nat, d: nat, lo: Bound, hi: Bound)
    requires EnvOk(env) && KidsOk(env, seps, kids, d, lo, hi) && newindx < |kids|
    requires SLOT0 + SepsUsed(env, seps) > PMax(env)
    ensures GrownOk(env, SplitBranch(env, seps, kids, newindx), d + 1, lo, hi)
    ensures SplitBranch(env, seps, kids, newindx).PageFull? ||
      GrownItems(SplitBranch(env, seps, kids, newindx)) == Flat(kids)
  {
    var g := SplitBranch(env, seps, kids, newindx);
    if g.Two? {
      var s := SplitIndex(BranchSizes(env, seps), newindx, PMax(env));
      Cut(env, seps, kids, d, lo, hi, s);
      BranchHasMany(env, seps);
      SplitLeavesTwo(BranchSizes(env, seps), newindx, PMax(env));
      assert Weak(env, g.l, d + 1, lo, At(g.sep)) && Weak(env, g.r, d + 1, At(g.sep), hi);
    }
  }

  /** A branch that overflows has at least six nodes, and none takes a third of a page. */
  lemma BranchHasMany(env: Env, seps: seq<Key>)
    requires EnvOk(env) && SLOT0 + SepsUsed(env, seps) > PMax(env)
    ensures |seps| >= 5
    ensures forall i :: 0 <= i <= |seps| ==> BranchSizes(env, seps)[i] <= PMax(env) / 3
  {
    var sizes := BranchSizes(env, seps);
    forall i | 0 <= i <= |seps| ensures sizes[i] <= 522 {
      if i > 0 {
        NodeSizes(env, Entry(0, []), seps[i - 1]);
        assert sizes[(i - 1) + 1] == BranchSize(env, seps[i - 1]);
      }
    }
    SumCoversCount(sizes, 522);
  }

  lemma SepSizesSlice(env: Env, seps: seq<Key>, i: nat, j: nat)
    requires i <= j <= |seps|
    ensures Sum(SepSizes(env, seps)[i..j]) == SepsUsed(env, seps[i..j])
  {
    assert SepSizes(env, seps)[i..j] == SepSizes(env, seps[i..j]);
  }

  lemma SplitBranchFits(env: Env, seps: seq<Key>, kids: seq<Tree>, newindx: nat)
    requires EnvOk(env) && |kids| == |seps| + 1 && 0 < newindx < |kids|
    requires SLOT0 + SepsUsed(env, seps) > PMax(env)
    requires SLOT0 + SepsUsed(env, seps[..newindx - 1]) + SepsUsed(env, seps[newindx..]) <= PMax(env)
    ensures Searched(|seps|, BranchSize(env, seps[newindx - 1]), newindx, PMax(env)) ==>
      SplitBranch(env, seps, kids, newindx).Two?
  {
    var sizes, pmax := BranchSizes(env, seps), PMax(env);
    BranchHasMany(env, seps);
    assert sizes[(newindx - 1) + 1] == BranchSize(env, seps[newindx - 1]);
    if Searched(|seps|, BranchSize(env, seps[newindx - 1]), newindx, pmax) {
      SepsWithout(env, seps, newindx - 1);
      SplitFits(sizes, newindx, pmax);
      SplitBranchHalves(env, seps, SplitIndex(sizes, newindx, pmax));
    }
  }

  /** The right half loses the key of its first node. */
  lemma SplitBranchHalves(env: Env, seps: seq<Key>, s: nat)
    requires EnvOk(env) && 0 < s <= |seps|
    ensures Sum(BranchSizes(env, seps)[..s]) == SLOT0 + SepsUsed(env, seps[..s - 1])
    ensures Sum(BranchSizes(env, seps)[s..]) >= SLOT0 + SepsUsed(env, seps[s..])
  {
    var sizes, ss := BranchSizes(env, seps), SepSizes(env, seps);
    assert sizes[..s] == [SLOT0] + ss[..s - 1];
    assert sizes[..s][1..] == ss[..s - 1];
    assert ss[0..s - 1] == ss[..s - 1] && seps[0..s - 1] == seps[..s - 1];
    SepSizesSlice(env, seps, 0, s - 1);
    NodeSizes(env, Entry(0, []), seps[s - 1]);
    assert sizes[s..][0] == BranchSize(env, seps[s - 1]) && sizes[s..][1..] == ss[s..|seps|] &&
        seps[s..|seps|] == seps[s..];
    SepSizesSlice(env, seps, s, |seps|);
  }
}
