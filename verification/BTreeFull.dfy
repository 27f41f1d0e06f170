/**
  When an operation finds a page full: exactly where a page has to be split, its split point is
  not searched for and its middle does not divide it into two pages that fit.  When no node
  is more than about ten times as large as another, this never happens.
 */
module BTreeFull {
  import opened Options
  import opened BTree
  import opened BTreeShape
  import opened SplitPoint
  import opened BTreeOps
  import opened BTreeProofs
  import opened BTreePut
  import opened BTreeDelete
  import opened BTreeDb

  // ---------------------------------------------------------------- exactly when a split fails

  /** A leaf that overflows with `e` and is cut in the middle, where it does not fit. */
  ghost predicate StuckLeaf(env: Env, es: seq<Entry>, e: Entry) {
    var es', i := With(es, e), EntryIndex(es, e.key);
    && LeafUsed(env, es') > PMax(env) && !Searched(|es'| - 1, LeafSize(env, e), i, PMax(env))
    && !Halves(LeafSizes(env, es'), |es'| / 2, PMax(env))
  }

  lemma PutLeafFullIff(env: Env, es: seq<Entry>, e: Entry)
    requires EnvOk(env) && LeafUsed(env, es) <= PMax(env)
    ensures PutLeaf(env, es, e).PageFull? <==> StuckLeaf(env, es, e)
  {
    hide With, Without, EntryIndex, LeafUsed, SplitLeaf, Searched, Halves, LeafSize, LeafSizes, EnvOk;
    var es', i := With(es, e), EntryIndex(es, e.key);
    PutSizes(env, es, e);
    if LeafUsed(env, es') > PMax(env) { SplitLeafFullIff(env, es', i); }
  }

  lemma SplitLeafFullIff(env: Env, es: seq<Entry>, newindx: nat)
    requires EnvOk(env) && newindx < |es|
    requires LeafUsed(env, es[..newindx]) + LeafUsed(env, es[newindx + 1..]) <= PMax(env) < LeafUsed(env, es)
    ensures SplitLeaf(env, es, newindx).PageFull? <==>
      && !Searched(|es| - 1, LeafSize(env, es[newindx]), newindx, PMax(env))
      && !Halves(LeafSizes(env, es), |es| / 2, PMax(env))
  {
    hide LeafSize, LeafUsed, LeafSizes, ScanRight, ScanLeft, Sum, EnvOk;
    var sizes, pmax := LeafSizes(env, es), PMax(env);
    SplitLeafFits(env, es, newindx);
    LeafHasMany(env, es);
    if !Searched(|es| - 1, LeafSize(env, es[newindx]), newindx, pmax) { SplitLeafHalves(env, es, |es| / 2); }
  }

  /** The two pages a branch with separators `seps` becomes when child `s` starts the right one. */
  ghost predicate SepHalves(env: Env, seps: seq<Key>, s: int) {
    0 < s <= |seps| && SLOT0 + SepsUsed(env, seps[..s - 1]) <= PMax(env) &&
      SLOT0 + SepsUsed(env, seps[s..]) <= PMax(env)
  }

  /**
    A branch that overflows with the separator before child `newindx`, and is cut in the middle,
    where it does not fit.
   */
  ghost predicate StuckBranch(env: Env, seps: seq<Key>, newindx: nat) {
    && 0 < newindx <= |seps| && SLOT0 + SepsUsed(env, seps) > PMax(env)
    && !Searched(|seps|, BranchSize(env, seps[newindx - 1]), newindx, PMax(env))
    && !SepHalves(env, seps, (|seps| + 1) / 2)
  }

  lemma SplitBranchFullIff(env: Env, seps: seq<Key>, kids: seq<Tree>, newindx: nat)
    requires EnvOk(env) && |kids| == |seps| + 1 && 0 < newindx < |kids|
    requires SLOT0 + SepsUsed(env, seps) > PMax(env)
    requires SLOT0 + SepsUsed(env, seps[..newindx - 1]) + SepsUsed(env, seps[newindx..]) <= PMax(env)
    ensures SplitBranch(env, seps, kids, newindx).PageFull? <==> StuckBranch(env, seps, newindx)
  {
    hide SepsUsed, BranchSize, BranchSizes, ScanRight, ScanLeft, Sum, EnvOk;
    SplitBranchFits(env, seps, kids, newindx);
    BranchHasMany(env, seps);
    assert BranchSizes(env, seps)[(newindx - 1) + 1] == BranchSize(env, seps[newindx - 1]);
  }

  lemma AddKidFullIff(env: Env, seps: seq<Key>, kids: seq<Tree>, i: nat, l: Tree, m: Key, r: Tree)
    requires EnvOk(env) && |kids| == |seps| + 1 && i < |kids| && SLOT0 + SepsUsed(env, seps) <= PMax(env)
    ensures AddKid(env, seps, kids, i, l, m, r).PageFull? <==> StuckBranch(env, seps[..i] + [m] + seps[i..], i + 1)
  {
    var seps', kids' := seps[..i] + [m] + seps[i..], kids[..i] + [l, r] + kids[i + 1..];
    AddSep(env, seps, i, m);
    RoomForSep(env, seps, m);
    hide SepsUsed, BranchSize, SplitBranch;
    if SLOT0 + SepsUsed(env, seps') > PMax(env) { SplitBranchFullIff(env, seps', kids', i + 1); }
  }

  lemma UpdateSepFullIff(env: Env, seps: seq<Key>, kids: seq<Tree>, i: nat, m: Key)
    requires EnvOk(env) && |kids| == |seps| + 1 && i < |seps| && SLOT0 + SepsUsed(env, seps) <= PMax(env)
    ensures UpdateSep(env, seps, kids, i, m).PageFull? <==> StuckBranch(env, seps[i := m], i + 1)
  {
    UpdateSepSizes(env, seps, i, m);
    hide SepsUsed, BranchSize, SplitBranch;
    if SLOT0 + SepsUsed(env, seps[i := m]) > PMax(env) { SplitBranchFullIff(env, seps[i := m], kids, i + 1); }
  }

  // ---------------------------------------------------------------- exactly when an operation fails

  /** Some page on the way to `e` is stuck: the leaf, or a branch whose child becomes two. */
  ghost predicate PutStuck(env: Env, t: Tree, e: Entry) {
    match t
    case Leaf(es) => StuckLeaf(env, es, e)
    case Branch(seps, kids) =>
      var i := KidIndex(seps, e.key);
      && i < |kids| && i <= |seps|
      && (PutStuck(env, kids[i], e) ||
          (Put(env, kids[i], e).Two? && StuckBranch(env, seps[..i] + [Put(env, kids[i], e).sep] + seps[i..], i + 1)))
  }

  /** A put fails exactly when some page on its way is stuck. */
  lemma {:induction false} PutFullIff(env: Env, t: Tree, e: Entry, d: nat, lo: Bound, hi: Bound)
    requires EnvOk(env) && Weak(env, t, d, lo, hi)
    ensures Put(env, t, e).PageFull? <==> PutStuck(env, t, e)
    decreases t
  {
    match t
    case Leaf(es) => PutLeafFullIff(env, es, e);
    case Branch(seps, kids) =>
      var i := KidIndex(seps, e.key);
      assert |kids| == |seps| + 1 && SLOT0 + SepsUsed(env, seps) <= PMax(env);
      assert Valid(env, kids[i], d - 1, KidLo(seps, lo, i), KidHi(seps, hi, i));
      PutFullIff(env, kids[i], e, d - 1, KidLo(seps, lo, i), KidHi(seps, hi, i));
      hide Weak, KidsOk, Valid, KidIndex, KidLo, KidHi, EnvOk, StuckBranch, AddKid, SepsUsed;
      var g := Put(env, kids[i], e);
      if g.Two? { AddKidFullIff(env, seps, kids, i, g.l, g.sep, g.r); }
  }

  /** The separator that borrowing from the neighbour of child `i` puts into the branch, and where. */
  function Borrowed(kids: seq<Tree>, i: nat, c: Tree): Key
    requires i < |kids| && |kids| >= 2
  {
    if i == 0 then MoveLeft(c, kids[1]).1 else MoveRight(kids[i - 1], c).1
  }

  /** A branch is stuck after a deletion below child `i`: the child became two, or a longer key was borrowed. */
  ghost predicate StuckAfter(env: Env, seps: seq<Key>, kids: seq<Tree>, i: nat, s: Shrunk)
    requires |kids| == |seps| + 1 && i < |kids| && |kids| >= 2 && env.psize > PAGEHDRSZ && s.Done?
  {
    match s.g
    case Two(_, m, _) => StuckBranch(env, seps[..i] + [m] + seps[i..], i + 1)
    case One(c) =>
      var j := if i == 0 then 0 else i - 1;
      && s.check && Underfull(env, c) && Rich(env, kids[if i == 0 then 1 else j])
      && StuckBranch(env, seps[j := Borrowed(kids, i, c)], j + 1)
    case PageFull => false
  }

  ghost predicate DeleteStuck(env: Env, t: Tree, k: Key)
    requires env.psize > PAGEHDRSZ
  {
    match t
    case Leaf(_) => false
    case Branch(seps, kids) =>
      var i := KidIndex(seps, k);
      && |kids| == |seps| + 1 && |kids| >= 2
      && (DeleteStuck(env, kids[i], k) ||
          (Delete(env, kids[i], k).Done? && StuckAfter(env, seps, kids, i, Delete(env, kids[i], k))))
  }

  lemma AfterKidFullIff(env: Env, seps: seq<Key>, kids: seq<Tree>, i: nat, s: Shrunk)
    requires EnvOk(env) && |kids| == |seps| + 1 && i < |kids| && |kids| >= 2 && s.Done?
    requires SLOT0 + SepsUsed(env, seps) <= PMax(env)
    ensures var r := AfterKid(env, seps, kids, i, s);
      r.Done? && (r.g.PageFull? <==> s.g.PageFull? || StuckAfter(env, seps, kids, i, s))
  {
    hide StuckBranch, UpdateSep, AddKid, Underfull, Rich, MoveLeft, MoveRight, SepsUsed, Merge;
    match s.g
    case Two(l, m, r) => AddKidFullIff(env, seps, kids, i, l, m, r);
    case One(c) =>
      if s.check && Underfull(env, c) && Rich(env, kids[if i == 0 then 1 else i - 1]) {
        var j := if i == 0 then 0 else i - 1;
        var (l, m, r) := if i == 0 then MoveLeft(c, kids[1]) else MoveRight(kids[i - 1], c);
        UpdateSepFullIff(env, seps, kids[j := l][j + 1 := r], j, m);
      }
    case PageFull =>
  }

  /** A deletion fails exactly when some branch on its way is stuck. */
  lemma {:induction false} DeleteFullIff(env: Env, t: Tree, k: Key, d: nat, lo: Bound, hi: Bound)
    requires EnvOk(env) && Weak(env, t, d, lo, hi) && NumKeys(t) >= MinKeys(t)
    ensures var s := Delete(env, t, k); s.Done? && s.g.PageFull? <==> DeleteStuck(env, t, k)
    decreases t
  {
    match t
    case Leaf(_) =>
    case Branch(seps, kids) =>
      var i := KidIndex(seps, k);
      assert |kids| == |seps| + 1 && SLOT0 + SepsUsed(env, seps) <= PMax(env);
      assert Valid(env, kids[i], d - 1, KidLo(seps, lo, i), KidHi(seps, hi, i));
      DeleteFullIff(env, kids[i], k, d - 1, KidLo(seps, lo, i), KidHi(seps, hi, i));
      hide Weak, KidsOk, Valid, KidIndex, KidLo, KidHi, StuckAfter, AfterKid, SepsUsed;
      var s := Delete(env, kids[i], k);
      if s.Done? { AfterKidFullIff(env, seps, kids, i, s); }
  }

  // ---------------------------------------------------------------- exactly when a run fails

  ghost predicate OpStuck(env: Env, db: Db, op: Op)
    requires env.psize > PAGEHDRSZ
  {
    db.root.Some? && (match op
                      case PutOp(e) => PutStuck(env, db.root.value, e)
                      case DelOp(k) => DeleteStuck(env, db.root.value, k))
  }

  function Step(env: Env, db: Db, op: Op): Option<Db>
    requires env.psize > PAGEHDRSZ
  {
    match op
    case PutOp(e) => PutDb(env, db, e)
    case DelOp(k) => DeleteDb(env, db, k)
  }

  lemma StepFullIff(env: Env, db: Db, op: Op)
    requires EnvOk(env) && DbOk(env, db)
    ensures Step(env, db, op).None? <==> OpStuck(env, db, op)
    ensures Step(env, db, op).Some? ==> DbOk(env, Step(env, db, op).value)
  {
    hide Put, Delete, PutStuck, DeleteStuck, Contents, Valid, Crowded, CrowdedBranches, Get, RebalanceRoot;
    match op
    case PutOp(e) =>
      PutDbOk(env, db, e);
      if db.root.Some? {
        ValidIsWeak(env, db.root.value, db.depth - 1);
        PutFullIff(env, db.root.value, e, db.depth - 1, Inf, Inf);
      }
    case DelOp(k) =>
      DeleteDbOk(env, db, k);
      if db.root.Some? {
        ValidIsWeak(env, db.root.value, db.depth - 1);
        DeleteFullIff(env, db.root.value, k, db.depth - 1, Inf, Inf);
      }
  }

  /** Operation `i` is stuck in the database the ones before it leave. */
  ghost predicate StuckAt(env: Env, db: Db, ops: seq<Op>, i: nat)
    requires env.psize > PAGEHDRSZ && i < |ops|
  {
    RunOps(env, db, ops[..i]).Some? && OpStuck(env, RunOps(env, db, ops[..i]).value, ops[i])
  }

  lemma StuckAtNext(env: Env, db: Db, ops: seq<Op>, i: nat)
    requires env.psize > PAGEHDRSZ && i + 1 < |ops| && Step(env, db, ops[0]).Some?
    ensures StuckAt(env, db, ops, i + 1) <==> StuckAt(env, Step(env, db, ops[0]).value, ops[1..], i)
  {
    hide OpStuck, PutDb, DeleteDb;
    assert ops[..i + 1][1..] == ops[1..][..i] && ops[..i + 1][0] == ops[0] && ops[1..][i] == ops[i + 1];
  }

  /** A run fails exactly when one of its operations is stuck in the state it meets. */
  lemma {:induction false} RunFullIff(env: Env, db: Db, ops: seq<Op>)
    requires EnvOk(env) && DbOk(env, db)
    ensures RunOps(env, db, ops).None? <==> exists i :: 0 <= i < |ops| && StuckAt(env, db, ops, i)
    decreases |ops|
  {
    hide OpStuck, PutDb, DeleteDb, DbOk, EnvOk;
    if ops != [] {
      StepFullIff(env, db, ops[0]);
      assert env.psize > PAGEHDRSZ by { BigPages(env); }
      assert ops[..0] == [] && RunOps(env, db, []) == Some(db);
      assert StuckAt(env, db, ops, 0) <==> OpStuck(env, db, ops[0]);
      if Step(env, db, ops[0]).Some? {
        var next := Step(env, db, ops[0]).value;
        RunFullIff(env, next, ops[1..]);
        forall i: nat | i + 1 < |ops| ensures StuckAt(env, db, ops, i + 1) <==> StuckAt(env, next, ops[1..], i) {
          StuckAtNext(env, db, ops, i);
        }
        if i :| 0 <= i < |ops[1..]| && StuckAt(env, next, ops[1..], i) { assert StuckAt(env, db, ops, i + 1); }
        if i :| 0 <= i < |ops| && StuckAt(env, db, ops, i) {
          if i > 0 { assert StuckAt(env, next, ops[1..], i - 1); }
        }
      }
    }
  }

  lemma BigPages(env: Env)
    requires EnvOk(env)
    ensures env.psize > PAGEHDRSZ
  {}

  // ---------------------------------------------------------------- nodes of similar size

  /** The least size of a leaf node and of a branch node with a key. */
  datatype Least = Least(leaf: nat, branch: nat)

  /**
    A separator is no larger than the ten smallest nodes of a branch together, slot 0 among them.
    With 12 bytes for the least branch node, which no key undercuts, keys of up to 108 bytes are fair.
   */
  predicate FairKey(env: Env, least: Least, k: Key) {
    least.branch <= BranchSize(env, k) <= SLOT0 + 9 * least.branch
  }

  /** An entry is no larger than ten of the smallest ones. */
  predicate FairEntry(env: Env, least: Least, e: Entry) {
    least.leaf <= LeafSize(env, e) <= 10 * least.leaf && FairKey(env, least, e.key)
  }

  predicate FairKeys(env: Env, least: Least, seps: seq<Key>) {
    forall i :: 0 <= i < |seps| ==> FairKey(env, least, seps[i])
  }

  predicate FairEntries(env: Env, least: Least, es: seq<Entry>) {
    forall i :: 0 <= i < |es| ==> FairEntry(env, least, es[i])
  }

  predicate FairKids(env: Env, least: Least, kids: seq<Tree>)
    decreases kids, 1
  {
    forall i :: 0 <= i < |kids| ==> Fair(env, least, kids[i])
  }

  /** All nodes of a tree are of similar size. */
  predicate Fair(env: Env, least: Least, t: Tree)
    decreases t, 0
  {
    match t
    case Leaf(es) => FairEntries(env, least, es)
    case Branch(seps, kids) => FairKeys(env, least, seps) && FairKids(env, least, kids)
  }

  predicate FairGrown(env: Env, least: Least, g: Grown) {
    match g
    case One(t) => Fair(env, least, t)
    case Two(l, m, r) => Fair(env, least, l) && Fair(env, least, r) && FairKey(env, least, m)
    case PageFull => true
  }

  // ---------------------------------------------------------------- then the middle always fits

  lemma {:induction false} SumAtLeast(xs: seq<nat>, least: nat)
    requires forall i :: 0 <= i < |xs| ==> xs[i] >= least
    ensures Sum(xs) >= |xs| * least
    decreases xs
  {
    if xs != [] {
      SumAtLeast(xs[1..], least);
      assert |xs| * least == least + (|xs| - 1) * least;
    }
  }

  lemma ManyAtLeast(xs: seq<nat>, least: nat, n: nat)
    requires (forall i :: 0 <= i < |xs| ==> xs[i] >= least) && |xs| >= n
    ensures Sum(xs) >= n * least
  {
    SumAtLeast(xs, least);
    assert |xs| * least >= n * least;
  }

  /** Twenty or more nodes of similar size can be cut in the middle. */
  lemma FairLeafCut(env: Env, least: Least, es: seq<Entry>, newindx: nat)
    requires FairEntries(env, least, es) && |es| >= 21 && newindx < |es|
    requires LeafUsed(env, es[..newindx]) + LeafUsed(env, es[newindx + 1..]) <= PMax(env)
    ensures Halves(LeafSizes(env, es), |es| / 2, PMax(env))
  {
    hide LeafSize, LeafSizes, Sum, LeafUsed;
    var sizes, mid := LeafSizes(env, es), |es| / 2;
    forall i | 0 <= i < |es| ensures least.leaf <= sizes[i] <= 10 * least.leaf { assert FairEntry(env, least, es[i]); }
    LeafWithout(env, es, newindx);
    SumCut(sizes, mid);
    ManyAtLeast(sizes[..mid], least.leaf, 10);
    ManyAtLeast(sizes[mid..], least.leaf, 10);
    assert sizes[newindx] == LeafSize(env, es[newindx]);
  }

  lemma FairBranchCut(env: Env, least: Least, seps: seq<Key>, newindx: nat)
    requires EnvOk(env) && FairKeys(env, least, seps) && least.branch >= SLOT0 && |seps| >= 20 && 0 < newindx <= |seps|
    requires SLOT0 + SepsUsed(env, seps[..newindx - 1]) + SepsUsed(env, seps[newindx..]) <= PMax(env)
    ensures SepHalves(env, seps, (|seps| + 1) / 2)
  {
    hide BranchSize, BranchSizes, SepSizes, Sum, SepsUsed, EnvOk;
    var sizes, mid := SepSizes(env, seps), (|seps| + 1) / 2;
    forall i | 0 <= i < |seps| ensures least.branch <= sizes[i] <= SLOT0 + 9 * least.branch {
      assert FairKey(env, least, seps[i]);
    }
    SepsWithout(env, seps, newindx - 1);
    SepsWithout(env, seps, mid - 1);
    SepSizesSlice(env, seps, 0, mid - 1);
    SepSizesSlice(env, seps, mid - 1, |seps|);
    SepSizesSlice(env, seps, mid, |seps|);
    assert seps[0..mid - 1] == seps[..mid - 1] && seps[mid..|seps|] == seps[mid..];
    ManyAtLeast(sizes[0..mid - 1], least.branch, 9);
    ManyAtLeast(sizes[mid..|seps|], least.branch, 9);
    assert sizes[newindx - 1] == BranchSize(env, seps[newindx - 1]);
    assert sizes[mid - 1] == BranchSize(env, seps[mid - 1]);
  }

  // ---------------------------------------------------------------- operations keep nodes fair, and never fail on them

  lemma FairCut(env: Env, least: Least, seps: seq<Key>, kids: seq<Tree>, i: nat, j: nat)
    requires FairKeys(env, least, seps) && FairKids(env, least, kids)
    ensures i <= j <= |seps| ==> FairKeys(env, least, seps[i..j])
    ensures i <= j <= |kids| ==> FairKids(env, least, kids[i..j])
  {}

  lemma FairJoin(env: Env, least: Least, s: seq<Key>, a: seq<Tree>, u: seq<Key>, b: seq<Tree>)
    requires FairKeys(env, least, s) && FairKids(env, least, a) && FairKeys(env, least, u) && FairKids(env, least, b)
    ensures FairKeys(env, least, s + u) && FairKids(env, least, a + b)
  {}

  lemma SplitLeafFair(env: Env, least: Least, es: seq<Entry>, newindx: nat)
    requires newindx < |es| && FairEntries(env, least, es)
    ensures FairGrown(env, least, SplitLeaf(env, es, newindx))
  {
    hide LeafSize, BranchSize, SplitIndex, LeafUsed;
    var g := SplitLeaf(env, es, newindx);
    if g.Two? { assert FairEntry(env, least, es[|g.l.es|]); }
  }

  lemma SplitBranchFair(env: Env, least: Least, seps: seq<Key>, kids: seq<Tree>, newindx: nat)
    requires |kids| == |seps| + 1 && newindx < |kids| && FairKeys(env, least, seps) && FairKids(env, least, kids)
    ensures FairGrown(env, least, SplitBranch(env, seps, kids, newindx))
  {
    hide BranchSize, SplitIndex, SepsUsed;
    var g := SplitBranch(env, seps, kids, newindx);
    if g.Two? {
      var s := |g.l.kids|;
      assert FairKey(env, least, seps[s - 1]);
      assert seps[..s - 1] == seps[0..s - 1] && seps[s..] == seps[s..|seps|];
      assert kids[..s] == kids[0..s] && kids[s..] == kids[s..|kids|];
      FairCut(env, least, seps, kids, 0, s - 1);
      FairCut(env, least, seps, kids, s, |seps|);
      FairCut(env, least, seps, kids, 0, s);
      FairCut(env, least, seps, kids, s, |kids|);
    }
  }

  lemma PutLeafFair(env: Env, least: Least, es: seq<Entry>, e: Entry)
    requires EnvOk(env) && LeafUsed(env, es) <= PMax(env) && FairEntries(env, least, es) && FairEntry(env, least, e)
    ensures !PutLeaf(env, es, e).PageFull? && FairGrown(env, least, PutLeaf(env, es, e))
  {
    hide FairEntry, LeafSize, SplitLeaf, LeafUsed, EnvOk, Halves, EntryIndex, With, Without;
    var es', i := With(es, e), EntryIndex(es, e.key);
    WithIs(es, e);
    assert FairEntries(env, least, es');
    PutSizes(env, es, e);
    PutLeafFullIff(env, es, e);
    if |es'| >= 21 { FairLeafCut(env, least, es', i); }
    SplitLeafFair(env, least, es', i);
  }

  lemma FairNotStuck(env: Env, least: Least, seps: seq<Key>, newindx: nat)
    requires EnvOk(env) && FairKeys(env, least, seps) && least.branch >= SLOT0 && 0 < newindx <= |seps|
    requires SLOT0 + SepsUsed(env, seps[..newindx - 1]) + SepsUsed(env, seps[newindx..]) <= PMax(env)
    ensures !StuckBranch(env, seps, newindx)
  {
    hide FairKeys, SepsUsed, SepHalves, EnvOk, BranchSize;
    if |seps| >= 20 { FairBranchCut(env, least, seps, newindx); }
  }

  lemma AddKidFair(env: Env, least: Least, seps: seq<Key>, kids: seq<Tree>, i: nat, l: Tree, m: Key, r: Tree)
    requires EnvOk(env) && |kids| == |seps| + 1 && i < |kids| && SLOT0 + SepsUsed(env, seps) <= PMax(env) &&
      least.branch >= SLOT0
    requires FairKeys(env, least, seps) && FairKids(env, least, kids) && FairGrown(env, least, Two(l, m, r))
    ensures var g := AddKid(env, seps, kids, i, l, m, r); !g.PageFull? && FairGrown(env, least, g)
  {
    hide BranchSize, SepsUsed, SplitBranch, StuckBranch, EnvOk, FairKey;
    var seps', kids' := seps[..i] + [m] + seps[i..], kids[..i] + [l, r] + kids[i + 1..];
    assert FairKeys(env, least, seps') && FairKids(env, least, kids');
    AddSep(env, seps, i, m);
    AddKidFullIff(env, seps, kids, i, l, m, r);
    FairNotStuck(env, least, seps', i + 1);
    hide FairKeys, FairKids;
    SplitBranchFair(env, least, seps', kids', i + 1);
  }

  lemma UpdateSepFair(env: Env, least: Least, seps: seq<Key>, kids: seq<Tree>, i: nat, m: Key)
    requires EnvOk(env) && |kids| == |seps| + 1 && i < |seps| && SLOT0 + SepsUsed(env, seps) <= PMax(env) &&
      least.branch >= SLOT0
    requires FairKeys(env, least, seps) && FairKids(env, least, kids) && FairKey(env, least, m)
    ensures var g := UpdateSep(env, seps, kids, i, m); !g.PageFull? && FairGrown(env, least, g)
  {
    hide BranchSize, SepsUsed, SplitBranch, StuckBranch, EnvOk, FairKey;
    assert FairKeys(env, least, seps[i := m]);
    UpdateSepSizes(env, seps, i, m);
    UpdateSepFullIff(env, seps, kids, i, m);
    FairNotStuck(env, least, seps[i := m], i + 1);
    hide FairKeys, FairKids;
    SplitBranchFair(env, least, seps[i := m], kids, i + 1);
  }

  lemma SetKidFair(env: Env, least: Least, seps: seq<Key>, kids: seq<Tree>, i: nat, g: Grown)
    requires EnvOk(env) && |kids| == |seps| + 1 && i < |kids| && SLOT0 + SepsUsed(env, seps) <= PMax(env) &&
      least.branch >= SLOT0
    requires FairKeys(env, least, seps) && FairKids(env, least, kids) && !g.PageFull? && FairGrown(env, least, g)
    ensures !SetKid(env, seps, kids, i, g).PageFull? && FairGrown(env, least, SetKid(env, seps, kids, i, g))
  {
    hide SepsUsed, EnvOk, FairKeys, AddKid;
    match g
    case One(t) =>
      assert FairKids(env, least, kids[i := t]);
      assert Fair(env, least, Branch(seps, kids[i := t]));
    case Two(l, m, r) => AddKidFair(env, least, seps, kids, i, l, m, r);
  }

  /** A put among nodes of similar size succeeds. */
  lemma {:induction false} PutFair(env: Env, least: Least, t: Tree, e: Entry, d: nat, lo: Bound, hi: Bound)
    requires EnvOk(env) && Weak(env, t, d, lo, hi) && least.branch >= SLOT0 && Fair(env, least, t) &&
      FairEntry(env, least, e)
    ensures !Put(env, t, e).PageFull? && FairGrown(env, least, Put(env, t, e))
    decreases t
  {
    match t
    case Leaf(es) => PutLeafFair(env, least, es, e);
    case Branch(seps, kids) =>
      var i := KidIndex(seps, e.key);
      assert |kids| == |seps| + 1 && SLOT0 + SepsUsed(env, seps) <= PMax(env);
      assert Valid(env, kids[i], d - 1, KidLo(seps, lo, i), KidHi(seps, hi, i)) && Fair(env, least, kids[i]);
      PutFair(env, least, kids[i], e, d - 1, KidLo(seps, lo, i), KidHi(seps, hi, i));
      hide Weak, KidsOk, Valid, KidIndex, KidLo, KidHi, EnvOk, SepsUsed, SetKid, FairEntry, FairKeys, FairKids,
          FairGrown;
      SetKidFair(env, least, seps, kids, i, Put(env, kids[i], e));
  }

  lemma {:induction false} LowestFair(env: Env, least: Least, t: Tree, d: nat, lo: Bound, hi: Bound)
    requires Weak(env, t, d, lo, hi) && NumKeys(t) > 0 && Fair(env, least, t)
    ensures FairKey(env, least, Lowest(t))
    decreases t
  {
    match t
    case Leaf(es) => assert FairEntry(env, least, es[0]);
    case Branch(seps, kids) =>
      assert Valid(env, kids[0], d - 1, KidLo(seps, lo, 0), KidHi(seps, hi, 0)) && Fair(env, least, kids[0]);
      LowestFair(env, least, kids[0], d - 1, KidLo(seps, lo, 0), KidHi(seps, hi, 0));
  }

  lemma MoveLeafFair(env: Env, least: Least, a: seq<Entry>, b: seq<Entry>)
    requires FairEntries(env, least, a) && FairEntries(env, least, b)
    ensures |b| > 1 ==> var (l, m, r) := MoveLeft(Leaf(a), Leaf(b)); FairGrown(env, least, Two(l, m, r))
    ensures |a| > 1 ==> var (l, m, r) := MoveRight(Leaf(a), Leaf(b)); FairGrown(env, least, Two(l, m, r))
  {
    hide BranchSize, LeafSize, FairKey;
    if |b| > 1 { assert FairEntry(env, least, b[1]); }
    if |a| > 1 { assert FairEntry(env, least, a[|a| - 1]); }
  }

  lemma MoveLeftFair(env: Env, least: Least, s: seq<Key>, a: seq<Tree>, u: seq<Key>, b: seq<Tree>)
    requires Fair(env, least, Branch(s, a)) && Fair(env, least, Branch(u, b)) && |b| == |u| + 1 && |b| > 2
    requires FairKey(env, least, Lowest(Branch(u, b)))
    ensures var (l, m, r) := MoveLeft(Branch(s, a), Branch(u, b)); FairGrown(env, least, Two(l, m, r))
  {
    hide BranchSize, LeafSize, Lowest, FairKey;
    assert FairKeys(env, least, [Lowest(Branch(u, b))]) && FairKids(env, least, [b[0]]);
    FairCut(env, least, u, b, 1, |u|);
    FairCut(env, least, u, b, 1, |b|);
    assert u[1..] == u[1..|u|] && b[1..] == b[1..|b|];
    FairJoin(env, least, s, a, [Lowest(Branch(u, b))], [b[0]]);
  }

  lemma MoveRightFair(env: Env, least: Least, s: seq<Key>, a: seq<Tree>, u: seq<Key>, b: seq<Tree>)
    requires Fair(env, least, Branch(s, a)) && Fair(env, least, Branch(u, b)) && |a| == |s| + 1 && |a| > 2
    requires FairKey(env, least, Lowest(Branch(u, b)))
    ensures var (l, m, r) := MoveRight(Branch(s, a), Branch(u, b)); FairGrown(env, least, Two(l, m, r))
  {
    hide BranchSize, LeafSize, Lowest, FairKey;
    assert FairKeys(env, least, [Lowest(Branch(u, b))]) && FairKids(env, least, [a[|a| - 1]]);
    FairCut(env, least, s, a, 0, |s| - 1);
    FairCut(env, least, s, a, 0, |a| - 1);
    assert s[..|s| - 1] == s[0..|s| - 1] && a[..|a| - 1] == a[0..|a| - 1];
    FairJoin(env, least, [Lowest(Branch(u, b))], [a[|a| - 1]], u, b);
  }

  lemma MergeFair(env: Env, least: Least, l: Tree, r: Tree)
    requires Fair(env, least, l) && Fair(env, least, r) && (r.Branch? ==> FairKey(env, least, Lowest(r)))
    ensures Fair(env, least, Merge(l, r))
  {
    hide BranchSize, LeafSize, Lowest, FairKey, FairEntry;
    if l.Branch? && r.Branch? {
      assert FairKeys(env, least, [Lowest(r)]) && FairKids(env, least, []);
      FairJoin(env, least, l.seps, l.kids, [Lowest(r)], []);
      assert l.kids + [] == l.kids;
      FairJoin(env, least, l.seps + [Lowest(r)], l.kids, r.seps, r.kids);
    } else if l.Leaf? && r.Leaf? {
      assert FairEntries(env, least, l.es + r.es);
    }
  }

  lemma BranchLowestFair(env: Env, least: Least, t: Tree, d: nat, lo: Bound, hi: Bound)
    requires Weak(env, t, d, lo, hi) && Fair(env, least, t)
    ensures t.Branch? ==> FairKey(env, least, Lowest(t))
  {
    if t.Branch? {
      WeakShape(env, t, d, lo, hi);
      LowestFair(env, least, t, d, lo, hi);
    }
  }

  lemma MoveFair(env: Env, least: Least, l: Tree, r: Tree)
    requires Fair(env, least, l) && Fair(env, least, r) && (r.Branch? ==> FairKey(env, least, Lowest(r)))
    requires Shaped(l) && Shaped(r) && (l.Leaf? <==> r.Leaf?)
    ensures NumKeys(r) > MinKeys(r) ==> var (l', m, r') := MoveLeft(l, r); FairGrown(env, least, Two(l', m, r'))
    ensures NumKeys(l) > MinKeys(l) ==> var (l', m, r') := MoveRight(l, r); FairGrown(env, least, Two(l', m, r'))
  {
    hide MoveLeft, MoveRight, FairGrown, Lowest, FairKey;
    match l
    case Leaf(a) => MoveLeafFair(env, least, a, r.es);
    case Branch(s, a) =>
      assert r == Branch(r.seps, r.kids);
      if |r.kids| > 2 { MoveLeftFair(env, least, s, a, r.seps, r.kids); }
      if |a| > 2 { MoveRightFair(env, least, s, a, r.seps, r.kids); }
  }

  lemma SetPairFair(env: Env, least: Least, kids: seq<Tree>, j: nat, l: Tree, r: Tree)
    requires FairKids(env, least, kids) && j + 1 < |kids| && Fair(env, least, l) && Fair(env, least, r)
    ensures FairKids(env, least, kids[j := l][j + 1 := r])
  {}

  lemma JoinedFair(env: Env, least: Least, seps: seq<Key>, kids: seq<Tree>, j: nat, t: Tree)
    requires FairKeys(env, least, seps) && FairKids(env, least, kids) && |kids| == |seps| + 1 && j < |seps| &&
      Fair(env, least, t)
    ensures Fair(env, least, Joined(seps, kids, j, t))
  {
    hide FairKey;
    assert FairKeys(env, least, seps[..j] + seps[j + 1..]);
    assert FairKids(env, least, kids[..j] + [t] + kids[j + 2..]);
  }

  /** Borrowing or merging among nodes of similar size succeeds. */
  lemma RebalanceFair(
      env: Env, least: Least, seps: seq<Key>, kids: seq<Tree>, i: nat, c: Tree, d: nat, lo: Bound, hi: Bound)
    requires EnvOk(env) && KidsOk(env, seps, kids, d, lo, hi) && SLOT0 + SepsUsed(env, seps) <= PMax(env) &&
      least.branch >= SLOT0
    requires |kids| == |seps| + 1 && i < |kids| && |kids| >= 2
    requires Weak(env, c, d, KidLo(seps, lo, i), KidHi(seps, hi, i))
    requires FairKeys(env, least, seps) && FairKids(env, least, kids) && Fair(env, least, c)
    ensures var s := Rebalance(env, seps, kids, i, c); s.Done? && !s.g.PageFull? && FairGrown(env, least, s.g)
  {
    hide KidsOk, Valid, Weak, Flat, Items, Underfull, UpdateSep, EnvOk, MoveLeft, MoveRight, Merge, Joined, SepsUsed,
        Fill, KidLo, KidHi;
    var j := if i == 0 then 0 else i - 1;
    var l, r := if i == 0 then c else kids[j], if i == 0 then kids[1] else c;
    assert FairKids(env, least, kids[i := c]) && Fair(env, least, l) && Fair(env, least, r);
    NeighbourPair(env, seps, kids, i, c, d, lo, hi);
    WeakShape(env, l, d, KidLo(seps, lo, j), At(seps[j]));
    WeakShape(env, r, d, At(seps[j]), KidHi(seps, hi, j + 1));
    BranchLowestFair(env, least, r, d, At(seps[j]), KidHi(seps, hi, j + 1));
    hide FairKeys, FairKids, Fair, FairKey, Lowest;
    RebalancePair(env, least, seps, kids, i, c, j, l, r);
  }

  lemma RebalancePair(
      env: Env, least: Least, seps: seq<Key>, kids: seq<Tree>, i: nat, c: Tree, j: nat, l: Tree, r: Tree)
    requires EnvOk(env) && SLOT0 + SepsUsed(env, seps) <= PMax(env) && least.branch >= SLOT0
    requires |kids| == |seps| + 1 && i < |kids| && |kids| >= 2 && j == if i == 0 then 0 else i - 1
    requires l == (if i == 0 then c else kids[j]) && r == (if i == 0 then kids[1] else c)
    requires FairKeys(env, least, seps) && FairKids(env, least, kids) && FairKids(env, least, kids[i := c])
    requires Fair(env, least, l) && Fair(env, least, r) && (r.Branch? ==> FairKey(env, least, Lowest(r)))
    requires Shaped(l) && Shaped(r) && (l.Leaf? <==> r.Leaf?)
    ensures var s := Rebalance(env, seps, kids, i, c); s.Done? && !s.g.PageFull? && FairGrown(env, least, s.g)
  {
    hide Underfull, UpdateSep, EnvOk, MoveLeft, MoveRight, Merge, Joined, SepsUsed, Fill, FairKeys, FairKids, FairKey,
        Lowest, Shaped;
    assert Fair(env, least, Branch(seps, kids[i := c]));
    hide Fair;
    if Rich(env, if i == 0 then r else l) {
      MoveFair(env, least, l, r);
      var (l', m, r') := if i == 0 then MoveLeft(l, r) else MoveRight(l, r);
      SetPairFair(env, least, kids, j, l', r');
      UpdateSepFair(env, least, seps, kids[j := l'][j + 1 := r'], j, m);
    } else {
      MergeFair(env, least, l, r);
      JoinedFair(env, least, seps, kids, j, Merge(l, r));
    }
  }

  lemma AfterKidFair(
      env: Env, least: Least, seps: seq<Key>, kids: seq<Tree>, i: nat, s: Shrunk, d: nat, lo: Bound, hi: Bound)
    requires EnvOk(env) && Weak(env, Branch(seps, kids), d + 1, lo, hi) && |kids| == |seps| + 1 && i < |kids| &&
      |kids| >= 2
    requires least.branch >= SLOT0 && Fair(env, least, Branch(seps, kids))
    requires s.Done? && ShrunkOk(env, s, d, KidLo(seps, lo, i), KidHi(seps, hi, i)) && !s.g.PageFull? &&
      FairGrown(env, least, s.g)
    ensures var r := AfterKid(env, seps, kids, i, s); r.Done? && !r.g.PageFull? && FairGrown(env, least, r.g)
  {
    WeakShape(env, Branch(seps, kids), d + 1, lo, hi);
    hide KidsOk, Valid, Weak, KidLo, KidHi, Rebalance, SetKid, EnvOk, SepsUsed, FairKeys, FairKids;
    if s.check && s.g.One? {
      RebalanceFair(env, least, seps, kids, i, s.g.t, d, lo, hi);
    } else {
      SetKidFair(env, least, seps, kids, i, s.g);
    }
  }

  /** A deletion among nodes of similar size succeeds. */
  lemma {:induction false} DeleteFair(env: Env, least: Least, t: Tree, k: Key, d: nat, lo: Bound, hi: Bound)
    requires EnvOk(env) && Weak(env, t, d, lo, hi) && NumKeys(t) >= MinKeys(t) && AtLeast(lo, k) && Below(k, hi)
    requires least.branch >= SLOT0 && Fair(env, least, t)
    ensures var s := Delete(env, t, k); s.Done? ==> !s.g.PageFull? && FairGrown(env, least, s.g)
    decreases t
  {
    match t
    case Leaf(es) => WithoutFair(env, least, es, k);
    case Branch(seps, kids) =>
      var i := KidIndex(seps, k);
      KidIndexOk(seps, k, lo, hi);
      assert Valid(env, kids[i], d - 1, KidLo(seps, lo, i), KidHi(seps, hi, i)) && Fair(env, least, kids[i]);
      DeleteFair(env, least, kids[i], k, d - 1, KidLo(seps, lo, i), KidHi(seps, hi, i));
      DeleteOk(env, kids[i], k, d - 1, KidLo(seps, lo, i), KidHi(seps, hi, i));
      hide Valid, Weak, KidsOk, KidIndex, EnvOk, AtLeast, Below, KidLo, KidHi, Has, AfterKid, FairGrown, Fair, ShrunkOk;
      if Delete(env, kids[i], k).Done? {
        AfterKidFair(env, least, seps, kids, i, Delete(env, kids[i], k), d - 1, lo, hi);
      }
  }

  lemma WithoutFair(env: Env, least: Least, es: seq<Entry>, k: Key)
    requires FairEntries(env, least, es)
    ensures FairEntries(env, least, Without(es, k))
  {
    hide FairEntry, EntryIndex;
  }

  // ---------------------------------------------------------------- runs that never fail

  ghost predicate FairDb(env: Env, least: Least, db: Db) {
    db.root.Some? ==> Fair(env, least, db.root.value)
  }

  lemma PutDbFair(env: Env, least: Least, db: Db, e: Entry)
    requires EnvOk(env) && DbOk(env, db) && least.branch >= SLOT0 && FairDb(env, least, db) && FairEntry(env, least, e)
    ensures PutDb(env, db, e).Some? && FairDb(env, least, PutDb(env, db, e).value)
  {
    hide Put, FairEntry, FairKey, EnvOk, Weak;
    if db.root.None? {
      assert FairEntries(env, least, [e]);
    } else {
      PutFair(env, least, db.root.value, e, db.depth - 1, Inf, Inf);
      match Put(env, db.root.value, e)
      case One(_) =>
      case Two(l, m, r) => NewRootFair(env, least, l, m, r);
    }
  }

  lemma NewRootFair(env: Env, least: Least, l: Tree, m: Key, r: Tree)
    requires FairGrown(env, least, Two(l, m, r))
    ensures Fair(env, least, Branch([m], [l, r]))
  {
    hide FairKey;
    assert FairKeys(env, least, [m]) && FairKids(env, least, [l, r]);
  }

  lemma DeleteDbFair(env: Env, least: Least, db: Db, k: Key)
    requires EnvOk(env) && DbOk(env, db) && least.branch >= SLOT0 && FairDb(env, least, db)
    ensures DeleteDb(env, db, k).Some? && FairDb(env, least, DeleteDb(env, db, k).value)
  {
    hide Delete, FairKey, Weak, Underfull;
    if db.root.Some? {
      DeleteFair(env, least, db.root.value, k, db.depth - 1, Inf, Inf);
      var s := Delete(env, db.root.value, k);
      if s.Done? && s.g.Two? { NewRootFair(env, least, s.g.l, s.g.sep, s.g.r); }
      if s.Done? && s.g.One? && s.g.t.Branch? { assert FairKids(env, least, s.g.t.kids); }
    }
  }

  /** Every entry the run stores is of similar size. */
  ghost predicate FairOps(env: Env, least: Least, ops: seq<Op>) {
    least.branch >= SLOT0 && forall i :: 0 <= i < |ops| && ops[i].PutOp? ==> FairEntry(env, least, ops[i].e)
  }

  /** A run that stores entries of similar size never fails. */
  lemma {:induction false} FairRunSucceeds(env: Env, least: Least, db: Db, ops: seq<Op>)
    requires EnvOk(env) && DbOk(env, db) && FairDb(env, least, db) && FairOps(env, least, ops)
    ensures RunOps(env, db, ops).Some?
    decreases |ops|
  {
    hide PutDb, DeleteDb, DbOk, FairDb, FairEntry, Contents;
    if ops != [] {
      assert FairOps(env, least, ops[1..]);
      match ops[0]
      case PutOp(e) =>
        PutDbFair(env, least, db, e);
        PutDbOk(env, db, e);
        FairRunSucceeds(env, least, PutDb(env, db, e).value, ops[1..]);
      case DelOp(k) =>
        DeleteDbFair(env, least, db, k);
        DeleteDbOk(env, db, k);
        FairRunSucceeds(env, least, DeleteDb(env, db, k).value, ops[1..]);
    }
  }

  /** On a new database, a run that stores entries of similar size succeeds, and lookups answer as the map. */
  lemma FairRunIsMap(env: Env, least: Least, ops: seq<Op>, k: Key)
    requires EnvOk(env) && FairOps(env, least, ops)
    ensures RunOps(env, EMPTY, ops).Some?
    ensures var m := RunMap(map[], ops); Get(RunOps(env, EMPTY, ops).value, k) == if k in m then Some(m[k]) else None
  {
    FairRunSucceeds(env, least, EMPTY, ops);
    GetAfterRun(env, ops, k);
  }
}
