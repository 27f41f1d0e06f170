/** How valid pieces of a tree are cut apart, glued together and moved between key ranges. */
module BTreeShape {
  import opened BTree

  // ---------------------------------------------------------------- sizes

  lemma {:induction false} LeafUsedConcat(env: Env, a: seq<Entry>, b: seq<Entry>)
    ensures LeafUsed(env, a + b) == LeafUsed(env, a) + LeafUsed(env, b)
    decreases a
  {
    if a == [] {
      assert a + b == b;
    } else {
      assert (a + b)[1..] == a[1..] + b;
      LeafUsedConcat(env, a[1..], b);
    }
  }

  lemma {:induction false} SepsUsedConcat(env: Env, a: seq<Key>, b: seq<Key>)
    ensures SepsUsed(env, a + b) == SepsUsed(env, a) + SepsUsed(env, b)
    decreases a
  {
    if a == [] {
      assert a + b == b;
    } else {
      assert (a + b)[1..] == a[1..] + b;
      SepsUsedConcat(env, a[1..], b);
    }
  }

  lemma SepsUsed3(env: Env, a: seq<Key>, m: Key, b: seq<Key>)
    ensures SepsUsed(env, a + [m] + b) == SepsUsed(env, a) + BranchSize(env, m) + SepsUsed(env, b)
  {
    SepsUsedConcat(env, a + [m], b);
    SepsUsedConcat(env, a, [m]);
    assert SepsUsed(env, [m]) == BranchSize(env, m) + SepsUsed(env, [m][1..]);
  }

  lemma LeafUsed3(env: Env, a: seq<Entry>, e: Entry, b: seq<Entry>)
    ensures LeafUsed(env, a + [e] + b) == LeafUsed(env, a) + LeafSize(env, e) + LeafUsed(env, b)
  {
    LeafUsedConcat(env, a + [e], b);
    LeafUsedConcat(env, a, [e]);
    assert LeafUsed(env, [e]) == LeafSize(env, e) + LeafUsed(env, [e][1..]);
  }

  lemma {:induction false} LeafUsedIsEven(env: Env, es: seq<Entry>)
    ensures LeafUsed(env, es) % 2 == 0
  {
    if es != [] { LeafUsedIsEven(env, es[1..]); }
  }

  lemma {:induction false} SepsUsedIsEven(env: Env, seps: seq<Key>)
    ensures SepsUsed(env, seps) % 2 == 0
  {
    if seps != [] { SepsUsedIsEven(env, seps[1..]); }
  }

  /** No node takes more than half a page; a branch node takes far less. */
  lemma NodeSizes(env: Env, e: Entry, k: Key)
    requires EnvOk(env)
    ensures 10 <= LeafSize(env, e) <= PMax(env) / 2
    ensures 10 < BranchSize(env, k) <= 522
  {
    assert 1 <= env.ksize(e.key) <= MAXKEYSIZE && 1 <= env.ksize(k) <= MAXKEYSIZE;
  }

  // ---------------------------------------------------------------- ranges

  /** `lo'` is no higher and `hi'` no lower. */
  predicate Wider(lo: Bound, hi: Bound, lo': Bound, hi': Bound) {
    && (lo'.Inf? || (lo.At? && lo'.k <= lo.k))
    && (hi'.Inf? || (hi.At? && hi.k <= hi'.k))
  }

  lemma {:induction false} Widen(env: Env, t: Tree, d: nat, lo: Bound, hi: Bound, lo': Bound, hi': Bound)
    requires Weak(env, t, d, lo, hi) && Wider(lo, hi, lo', hi')
    ensures Weak(env, t, d, lo', hi')
    decreases t, 0
  {
    match t
    case Leaf(_) =>
    case Branch(seps, kids) => WidenKids(env, seps, kids, d - 1, lo, hi, lo', hi');
  }

  lemma {:induction false} WidenKids(
      env: Env, seps: seq<Key>, kids: seq<Tree>, d: nat, lo: Bound, hi: Bound, lo': Bound, hi': Bound)
    requires KidsOk(env, seps, kids, d, lo, hi) && Wider(lo, hi, lo', hi')
    ensures KidsOk(env, seps, kids, d, lo', hi')
    decreases kids, 1
  {
    forall i | 0 <= i < |kids| ensures Valid(env, kids[i], d, KidLo(seps, lo', i), KidHi(seps, hi', i)) {
      Widen(env, kids[i], d, KidLo(seps, lo, i), KidHi(seps, hi, i), KidLo(seps, lo', i), KidHi(seps, hi', i));
    }
  }

  /** The first key of a valid tree. */
  function Lowest(t: Tree): Key {
    match t
    case Leaf(es) => if es == [] then 0 else es[0].key
    case Branch(_, kids) => if kids == [] then 0 else Lowest(kids[0])
  }

  lemma {:induction false} LowestWithin(env: Env, t: Tree, d: nat, lo: Bound, hi: Bound)
    requires Weak(env, t, d, lo, hi) && NumKeys(t) >= MinKeys(t)
    ensures AtLeast(lo, Lowest(t)) && Below(Lowest(t), hi)
    ensures t.Branch? && |t.seps| > 0 ==> Lowest(t) < t.seps[0]
  {
    match t
    case Leaf(_) =>
    case Branch(seps, kids) =>
      assert Valid(env, kids[0], d - 1, KidLo(seps, lo, 0), KidHi(seps, hi, 0));
      LowestWithin(env, kids[0], d - 1, KidLo(seps, lo, 0), KidHi(seps, hi, 0));
  }

  /** A valid tree is also valid from its first key on. */
  lemma {:induction false} RaiseLow(env: Env, t: Tree, d: nat, lo: Bound, hi: Bound)
    requires Weak(env, t, d, lo, hi) && NumKeys(t) >= MinKeys(t)
    ensures Valid(env, t, d, At(Lowest(t)), hi)
    decreases t
  {
    LowestWithin(env, t, d, lo, hi);
    match t
    case Leaf(_) =>
    case Branch(seps, kids) =>
      assert Valid(env, kids[0], d - 1, KidLo(seps, lo, 0), KidHi(seps, hi, 0));
      RaiseLow(env, kids[0], d - 1, KidLo(seps, lo, 0), KidHi(seps, hi, 0));
      forall i | 0 <= i < |kids| ensures Valid(env, kids[i], d - 1, KidLo(seps, At(Lowest(t)), i), KidHi(seps, hi, i)) {
        if i > 0 { assert KidLo(seps, At(Lowest(t)), i) == KidLo(seps, lo, i); }
      }
      assert KidsOk(env, seps, kids, d - 1, At(Lowest(t)), hi);
  }

  lemma RaiseLowKids(env: Env, seps: seq<Key>, kids: seq<Tree>, d: nat, lo: Bound, hi: Bound)
    requires KidsOk(env, seps, kids, d, lo, hi)
    ensures KidsOk(env, seps, kids, d, At(Lowest(kids[0])), hi)
    ensures AtLeast(lo, Lowest(kids[0])) && Below(Lowest(kids[0]), KidHi(seps, hi, 0)) && Below(Lowest(kids[0]), hi)
  {
    var m := Lowest(kids[0]);
    LowestWithin(env, kids[0], d, KidLo(seps, lo, 0), KidHi(seps, hi, 0));
    RaiseLow(env, kids[0], d, KidLo(seps, lo, 0), KidHi(seps, hi, 0));
    forall i | 0 <= i < |kids| ensures Valid(env, kids[i], d, KidLo(seps, At(m), i), KidHi(seps, hi, i)) {
      if i > 0 { assert KidLo(seps, At(m), i) == KidLo(seps, lo, i); }
    }
  }

  // ---------------------------------------------------------------- cutting and gluing branches

  lemma Cut(env: Env, seps: seq<Key>, kids: seq<Tree>, d: nat, lo: Bound, hi: Bound, j: nat)
    requires KidsOk(env, seps, kids, d, lo, hi) && 0 < j < |kids|
    ensures KidsOk(env, seps[..j - 1], kids[..j], d, lo, At(seps[j - 1]))
    ensures KidsOk(env, seps[j..], kids[j..], d, At(seps[j - 1]), hi)
    ensures Flat(kids) == Flat(kids[..j]) + Flat(kids[j..])
    ensures Above(lo, seps[j - 1]) && Below(seps[j - 1], hi)
  {
    assert kids == kids[..j] + kids[j..];
    FlatConcat(kids[..j], kids[j..]);
    CutLeft(env, seps, kids, d, lo, hi, j);
    CutRight(env, seps, kids, d, lo, hi, j);
  }

  lemma CutLeft(env: Env, seps: seq<Key>, kids: seq<Tree>, d: nat, lo: Bound, hi: Bound, j: nat)
    requires KidsOk(env, seps, kids, d, lo, hi) && 0 < j < |kids|
    ensures KidsOk(env, seps[..j - 1], kids[..j], d, lo, At(seps[j - 1]))
  {
    var s, ks, m := seps[..j - 1], kids[..j], seps[j - 1];
    forall i | 0 <= i < |ks| ensures Valid(env, ks[i], d, KidLo(s, lo, i), KidHi(s, At(m), i)) {
      assert ks[i] == kids[i] && KidLo(s, lo, i) == KidLo(seps, lo, i) && KidHi(s, At(m), i) == KidHi(seps, hi, i);
    }
  }

  lemma CutRight(env: Env, seps: seq<Key>, kids: seq<Tree>, d: nat, lo: Bound, hi: Bound, j: nat)
    requires KidsOk(env, seps, kids, d, lo, hi) && 0 < j < |kids|
    ensures KidsOk(env, seps[j..], kids[j..], d, At(seps[j - 1]), hi)
  {
    var s, ks, m := seps[j..], kids[j..], seps[j - 1];
    forall i | 0 <= i < |ks| ensures Valid(env, ks[i], d, KidLo(s, At(m), i), KidHi(s, hi, i)) {
      assert ks[i] == kids[j + i] && KidLo(s, At(m), i) == KidLo(seps, lo, j + i) &&
          KidHi(s, hi, i) == KidHi(seps, hi, j + i);
    }
  }

  lemma Glue(env: Env, s1: seq<Key>, k1: seq<Tree>, m: Key, s2: seq<Key>, k2: seq<Tree>, d: nat, lo: Bound, hi: Bound)
    requires KidsOk(env, s1, k1, d, lo, At(m)) && KidsOk(env, s2, k2, d, At(m), hi)
    requires Above(lo, m) && Below(m, hi)
    ensures KidsOk(env, s1 + [m] + s2, k1 + k2, d, lo, hi)
    ensures Flat(k1 + k2) == Flat(k1) + Flat(k2)
  {
    FlatConcat(k1, k2);
    var s, ks := s1 + [m] + s2, k1 + k2;
    GlueSeps(s1, m, s2, lo, hi);
    forall i | 0 <= i < |ks| ensures Valid(env, ks[i], d, KidLo(s, lo, i), KidHi(s, hi, i)) {
      if i < |k1| {
        assert ks[i] == k1[i] && KidLo(s, lo, i) == KidLo(s1, lo, i) && KidHi(s, hi, i) == KidHi(s1, At(m), i);
      } else {
        var j := i - |k1|;
        assert ks[i] == k2[j] && KidLo(s, lo, i) == KidLo(s2, At(m), j) && KidHi(s, hi, i) == KidHi(s2, hi, j);
      }
    }
  }

  lemma GlueSeps(s1: seq<Key>, m: Key, s2: seq<Key>, lo: Bound, hi: Bound)
    requires SepsWithin(s1, lo, At(m)) && SepsWithin(s2, At(m), hi) && Above(lo, m) && Below(m, hi)
    ensures SepsWithin(s1 + [m] + s2, lo, hi)
  {}

  lemma OneKid(env: Env, t: Tree, d: nat, lo: Bound, hi: Bound)
    requires Valid(env, t, d, lo, hi)
    ensures KidsOk(env, [], [t], d, lo, hi) && Flat([t]) == Items(t)
  {}

  /** Two valid trees side by side. */
  lemma TwoKids(env: Env, l: Tree, m: Key, r: Tree, d: nat, lo: Bound, hi: Bound)
    requires Valid(env, l, d, lo, At(m)) && Valid(env, r, d, At(m), hi) && Above(lo, m) && Below(m, hi)
    ensures KidsOk(env, [m], [l, r], d, lo, hi) && Flat([l, r]) == Items(l) + Items(r)
  {
    OneKid(env, l, d, lo, At(m));
    OneKid(env, r, d, At(m), hi);
    Glue(env, [], [l], m, [], [r], d, lo, hi);
    assert [] + [m] + [] == [m] && [l] + [r] == [l, r];
  }

  // ---------------------------------------------------------------- single pages

  ghost predicate Shaped(t: Tree) {
    t.Branch? ==> |t.kids| == |t.seps| + 1
  }

  /** What a page of height d looks like from outside. */
  lemma WeakShape(env: Env, t: Tree, d: nat, lo: Bound, hi: Bound)
    requires Weak(env, t, d, lo, hi)
    ensures Shaped(t) && (t.Leaf? <==> d == 0)
    ensures t.Branch? ==>
      KidsOk(env, t.seps, t.kids, d - 1, lo, hi) && |t.kids| >= 1 && SLOT0 + SepsUsed(env, t.seps) <= PMax(env)
  {}

  lemma ValidLeaf(env: Env, es: seq<Entry>, lo: Bound, hi: Bound)
    requires SortedEntries(es) && EntriesWithin(es, lo, hi) && LeafUsed(env, es) <= PMax(env) && es != []
    ensures Valid(env, Leaf(es), 0, lo, hi)
  {
    assert Weak(env, Leaf(es), 0, lo, hi);
  }

  lemma ValidBranch(env: Env, seps: seq<Key>, kids: seq<Tree>, d: nat, lo: Bound, hi: Bound)
    requires KidsOk(env, seps, kids, d, lo, hi) && SLOT0 + SepsUsed(env, seps) <= PMax(env) && |kids| >= 2
    ensures Valid(env, Branch(seps, kids), d + 1, lo, hi)
  {
    assert Weak(env, Branch(seps, kids), d + 1, lo, hi);
  }
}
