/** Storing a key: the tree stays well-formed, and holds the new entry besides the old ones. */
module BTreePut {
  import opened BTree
  import opened BTreeShape
  import opened SplitPoint
  import opened BTreeOps
  import opened BTreeProofs

  /** The entries of a leaf with `e` stored, and where. */
  lemma PutEntries(es: seq<Entry>, e: Entry, lo: Bound, hi: Bound)
    requires SortedEntries(es) && EntriesWithin(es, lo, hi) && AtLeast(lo, e.key) && Below(e.key, hi)
    ensures SortedEntries(With(es, e)) && EntriesWithin(With(es, e), lo, hi) && Upserted(es, With(es, e), e)
  {
    var i := EntryIndex(es, e.key);
    var j := if HasKey(es, e.key) then i + 1 else i;
    WithIs(es, e);
    EntryPlace(es, e.key);
    hide With, Without, EntryIndex, HasKey;
    assert UpsertedAt(es, With(es, e), e, i, j);
    PlacedSorted(es, e, i, j, lo, hi);
  }

  /** Where a key goes: all before are below it, all after above. */
  lemma EntryPlace(es: seq<Entry>, k: Key)
    requires SortedEntries(es)
    ensures var i := EntryIndex(es, k); var j := if HasKey(es, k) then i + 1 else i;
      && i <= j <= |es| && (j == i + 1 ==> es[i].key == k)
      && (forall q :: 0 <= q < i ==> es[q].key < k) && (forall q :: j <= q < |es| ==> es[q].key > k)
  {}

  lemma WithIs(es: seq<Entry>, e: Entry)
    ensures var i := EntryIndex(es, e.key); var j := if HasKey(es, e.key) then i + 1 else i;
      With(es, e) == es[..i] + [e] + es[j..]
  {
    var i, base := EntryIndex(es, e.key), Without(es, e.key);
    hide EntryIndex;
    if HasKey(es, e.key) { assert base[..i] == es[..i] && base[i..] == es[i + 1..]; }
  }

  lemma PlacedSorted(es: seq<Entry>, e: Entry, i: nat, j: nat, lo: Bound, hi: Bound)
    requires SortedEntries(es) && EntriesWithin(es, lo, hi) && AtLeast(lo, e.key) && Below(e.key, hi) && i <= j <= |es|
    requires (forall q :: 0 <= q < i ==> es[q].key < e.key) && (forall q :: j <= q < |es| ==> es[q].key > e.key)
    ensures SortedEntries(es[..i] + [e] + es[j..]) && EntriesWithin(es[..i] + [e] + es[j..], lo, hi)
  {}

  lemma PutSizes(env: Env, es: seq<Entry>, e: Entry)
    ensures var i, base, es' := EntryIndex(es, e.key), Without(es, e.key), With(es, e);
      && LeafUsed(env, base) <= LeafUsed(env, es)
      && es'[i] == e && LeafUsed(env, es'[..i]) + LeafUsed(env, es'[i + 1..]) == LeafUsed(env, base)
      && LeafUsed(env, es') == LeafUsed(env, base) + LeafSize(env, e)
  {
    var i, base, es' := EntryIndex(es, e.key), Without(es, e.key), With(es, e);
    hide EntryIndex, LeafSize;
    if HasKey(es, e.key) {
      LeafUsedConcat(env, es[..i], es[i + 1..]);
      LeafWithout(env, es, i);
    }
    LeafUsedConcat(env, base[..i], base[i..]);
    assert base[..i] + base[i..] == base && es'[..i] == base[..i] && es'[i + 1..] == base[i..];
    LeafWithout(env, es', i);
  }

  /** A leaf of entries `es` that fitted without the one at `i`. */
  lemma AddEntryOk(env: Env, es: seq<Entry>, i: nat, lo: Bound, hi: Bound)
    requires EnvOk(env) && i < |es| && SortedEntries(es) && EntriesWithin(es, lo, hi)
    requires LeafUsed(env, es[..i]) + LeafUsed(env, es[i + 1..]) <= PMax(env)
    ensures var g := if LeafUsed(env, es) > PMax(env) then SplitLeaf(env, es, i) else One(Leaf(es));
      && GrownOk(env, g, 0, lo, hi)
      && (g.PageFull? || GrownItems(g) == es)
      && (g.PageFull? ==> !Searched(|es| - 1, LeafSize(env, es[i]), i, PMax(env)))
  {
    if LeafUsed(env, es) <= PMax(env) {
      assert Weak(env, Leaf(es), 0, lo, hi);
    } else {
      SplitLeafOk(env, es, i, lo, hi);
      SplitLeafFits(env, es, i);
    }
  }

  lemma PutLeafOk(env: Env, es: seq<Entry>, e: Entry, lo: Bound, hi: Bound)
    requires EnvOk(env) && Weak(env, Leaf(es), 0, lo, hi) && AtLeast(lo, e.key) && Below(e.key, hi)
    ensures GrownOk(env, PutLeaf(env, es, e), 0, lo, hi)
    ensures PutLeaf(env, es, e).PageFull? || Upserted(es, GrownItems(PutLeaf(env, es, e)), e)
    ensures PutLeaf(env, es, e).PageFull? ==> CrowdedLeaf(env, es, e)
  {
    PutEntries(es, e, lo, hi);
    PutSizes(env, es, e);
    AddEntryOk(env, With(es, e), EntryIndex(es, e.key), lo, hi);
  }

  lemma AddKidOk(
      env: Env, seps: seq<Key>, kids: seq<Tree>, i: nat, l: Tree, m: Key, r: Tree, d: nat, lo: Bound, hi: Bound)
    requires EnvOk(env) && Weak(env, Branch(seps, kids), d + 1, lo, hi) && i < |kids| == |seps| + 1
    requires GrownOk(env, Two(l, m, r), d, KidLo(seps, lo, i), KidHi(seps, hi, i))
    ensures var g := AddKid(env, seps, kids, i, l, m, r);
      && GrownOk(env, g, d + 1, lo, hi)
      && (g.PageFull? || GrownItems(g) == Flat(kids[..i]) + (Items(l) + Items(r)) + Flat(kids[i + 1..]))
    ensures AddKid(env, seps, kids, i, l, m, r).PageFull? ==> CrowdedBranch(kids, i)
  {
    hide Weak, KidsOk, Valid, Flat, SepsUsed, BranchSize, SplitBranch;
    var seps', kids' := seps[..i] + [m] + seps[i..], kids[..i] + [l, r] + kids[i + 1..];
    WeakShape(env, Branch(seps, kids), d + 1, lo, hi);
    TwoKids(env, l, m, r, d, KidLo(seps, lo, i), KidHi(seps, hi, i));
    Splice(env, seps, kids, d, lo, hi, i, i + 1, [m], [l, r]);
    AddSep(env, seps, i, m);
    RoomForSep(env, seps, m);
    if SLOT0 + SepsUsed(env, seps') <= PMax(env) {
      ValidBranch(env, seps', kids', d, lo, hi);
    } else {
      SplitBranchOk(env, seps', kids', i + 1, d, lo, hi);
      SplitBranchFits(env, seps', kids', i + 1);
    }
  }

  lemma AddSep(env: Env, seps: seq<Key>, i: nat, m: Key)
    requires EnvOk(env) && i <= |seps|
    ensures var seps' := seps[..i] + [m] + seps[i..];
      && seps'[i] == m && seps'[..i] == seps[..i] && seps'[i + 1..] == seps[i..]
      && SepsUsed(env, seps') == SepsUsed(env, seps) + BranchSize(env, m)
      && SepsUsed(env, seps[..i]) + SepsUsed(env, seps[i..]) == SepsUsed(env, seps)
  {
    SepsUsed3(env, seps[..i], m, seps[i..]);
    SepsUsedConcat(env, seps[..i], seps[i..]);
    assert seps[..i] + seps[i..] == seps;
  }

  /** The room check rounds nothing up, but page use is always even, so it is exact. */
  lemma RoomForSep(env: Env, seps: seq<Key>, m: Key)
    requires EnvOk(env)
    ensures PMax(env) - (SLOT0 + SepsUsed(env, seps)) < NODESIZE + env.ksize(m) + INDX <==>
      SLOT0 + SepsUsed(env, seps) + BranchSize(env, m) > PMax(env)
  {
    SepsUsedIsEven(env, seps);
  }

  // ---------------------------------------------------------------- when a put can fail

  /** A leaf whose split point is not searched for. */
  predicate CrowdedLeaf(env: Env, es: seq<Entry>, e: Entry) {
    var i, n := EntryIndex(es, e.key), |Without(es, e.key)|;
    n >= 20 && i < n && LeafSize(env, e) <= PMax(env) / 16
  }

  predicate CrowdedBranch(kids: seq<Tree>, i: nat) {
    |kids| >= 20 && i + 1 < |kids|
  }

  /** Some page on the way to `e` holds twenty or more nodes and would get the new one before its last. */
  predicate Crowded(env: Env, t: Tree, e: Entry) {
    match t
    case Leaf(es) => CrowdedLeaf(env, es, e)
    case Branch(seps, kids) =>
      var i := KidIndex(seps, e.key);
      i < |kids| && (CrowdedBranch(kids, i) || Crowded(env, kids[i], e))
  }

  // ---------------------------------------------------------------- put

  /** The child to follow is the one whose range holds the key. */
  lemma KidIndexOk(seps: seq<Key>, k: Key, lo: Bound, hi: Bound)
    requires SepsWithin(seps, lo, hi) && AtLeast(lo, k) && Below(k, hi)
    ensures AtLeast(KidLo(seps, lo, KidIndex(seps, k)), k) && Below(k, KidHi(seps, hi, KidIndex(seps, k)))
  {}

  lemma ReplaceKid(env: Env, seps: seq<Key>, kids: seq<Tree>, i: nat, t: Tree, d: nat, lo: Bound, hi: Bound)
    requires KidsOk(env, seps, kids, d, lo, hi) && i < |kids| == |seps| + 1
    requires Valid(env, t, d, KidLo(seps, lo, i), KidHi(seps, hi, i))
    ensures KidsOk(env, seps, kids[i := t], d, lo, hi)
    ensures Flat(kids[i := t]) == Flat(kids[..i]) + Items(t) + Flat(kids[i + 1..])
  {
    hide KidsOk, Valid, Flat;
    OneKid(env, t, d, KidLo(seps, lo, i), KidHi(seps, hi, i));
    Splice(env, seps, kids, d, lo, hi, i, i + 1, [], [t]);
    CutOnce(seps, i);
    assert seps[..i] + [] == seps[..i];
    assert kids[..i] + [t] + kids[i + 1..] == kids[i := t];
  }

  lemma SetKidOk(env: Env, seps: seq<Key>, kids: seq<Tree>, i: nat, g: Grown, d: nat, lo: Bound, hi: Bound)
    requires EnvOk(env) && Weak(env, Branch(seps, kids), d + 1, lo, hi) && i < |kids| == |seps| + 1 && |kids| >= 2
    requires GrownOk(env, g, d, KidLo(seps, lo, i), KidHi(seps, hi, i))
    ensures GrownOk(env, SetKid(env, seps, kids, i, g), d + 1, lo, hi)
    ensures g.PageFull? ==> SetKid(env, seps, kids, i, g).PageFull?
    ensures SetKid(env, seps, kids, i, g).PageFull? ==> g.PageFull? || CrowdedBranch(kids, i)
    ensures SetKid(env, seps, kids, i, g).PageFull? ||
      GrownItems(SetKid(env, seps, kids, i, g)) == Flat(kids[..i]) + GrownItems(g) + Flat(kids[i + 1..])
  {
    match g
    case One(t) => ReplaceKid(env, seps, kids, i, t, d, lo, hi);
    case Two(l, m, r) => AddKidOk(env, seps, kids, i, l, m, r, d, lo, hi);
    case PageFull =>
  }

  lemma KidItems(kids: seq<Tree>, i: nat)
    requires i < |kids|
    ensures Flat(kids) == Flat(kids[..i]) + Items(kids[i]) + Flat(kids[i + 1..])
  {
    hide Flat, Items;
    SpliceFlat(kids, i, i + 1);
    SliceOne(kids, i);
    FlatOne(kids[i]);
  }

  /**
    A put keeps the tree well-formed and stores the entry; it can fail only where a page on
    the way is split without searching for the split point.
   */
  lemma {:induction false} PutOk(env: Env, t: Tree, e: Entry, d: nat, lo: Bound, hi: Bound)
    requires EnvOk(env) && Weak(env, t, d, lo, hi) && NumKeys(t) >= MinKeys(t)
    requires AtLeast(lo, e.key) && Below(e.key, hi)
    ensures GrownOk(env, Put(env, t, e), d, lo, hi)
    ensures Put(env, t, e).PageFull? || Upserted(Items(t), GrownItems(Put(env, t, e)), e)
    ensures Put(env, t, e).PageFull? ==> Crowded(env, t, e)
    decreases t
  {
    match t
    case Leaf(es) => PutLeafOk(env, es, e, lo, hi);
    case Branch(seps, kids) =>
      var i := KidIndex(seps, e.key);
      KidIndexOk(seps, e.key, lo, hi);
      assert Valid(env, kids[i], d - 1, KidLo(seps, lo, i), KidHi(seps, hi, i));
      assert Weak(env, kids[i], d - 1, KidLo(seps, lo, i), KidHi(seps, hi, i)) && |kids| == |seps| + 1;
      hide Weak, KidsOk, Valid, GrownOk, GrownItems, SetKid, Upserted, KidIndex, KidLo, KidHi, AtLeast, Below, EnvOk;
      PutOk(env, kids[i], e, d - 1, KidLo(seps, lo, i), KidHi(seps, hi, i));
      var g := Put(env, kids[i], e);
      SetKidOk(env, seps, kids, i, g, d - 1, lo, hi);
      if !g.PageFull? {
        KidItems(kids, i);
        UpsertedWithin(Flat(kids[..i]), Items(kids[i]), GrownItems(g), Flat(kids[i + 1..]), e);
      }
  }
}
