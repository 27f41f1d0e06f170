/**
  The B+tree of a database, as values: pages are leaves of sorted entries or branches of
  children separated by keys; slot 0 of a branch has no key.  Sizes are the byte sizes of
  mdb.c, since they decide when pages split, borrow and merge.

  Keys are represented by their rank in the comparison order, and their lengths by a
  function of the rank.
 */
module BTree {

  type Key = int
  type Val = seq<nat>

  datatype Entry = Entry(key: Key, val: Val)

  datatype Tree =
    | Leaf(es: seq<Entry>)
    | Branch(seps: seq<Key>, kids: seq<Tree>)

  /** End of a key range: `At(k)` is inclusive below and exclusive above. */
  datatype Bound = Inf | At(k: Key)

  predicate AtLeast(lo: Bound, k: Key) { lo.Inf? || lo.k <= k }
  predicate Above(lo: Bound, k: Key) { lo.Inf? || lo.k < k }
  predicate Below(k: Key, hi: Bound) { hi.Inf? || k < hi.k }

  // ---------------------------------------------------------------- sizes

  datatype Env = Env(psize: nat, ksize: Key -> nat)

  const PAGEHDRSZ := 16
  const NODESIZE := 8
  const INDX := 2       // sizeof(indx_t)
  const PGNO := 8       // sizeof(pgno_t)
  const MAXKEYSIZE := 511
  const FILL_THRESHOLD := 250

  ghost predicate EnvOk(env: Env) {
    env.psize >= 4096 && env.psize % 2 == 0 && forall k :: 1 <= env.ksize(k) <= MAXKEYSIZE
  }

  function Even(n: nat): (r: nat)
    ensures n <= r <= n + 1 && r % 2 == 0
  {
    (n + 1) / 2 * 2
  }

  /** Room for nodes and their index entries in an empty page. */
  function PMax(env: Env): int {
    env.psize - PAGEHDRSZ
  }

  function NodeMax(env: Env): int {
    PMax(env) / 2 / 2 * 2 - INDX
  }

  /** mdb_leaf_size: large data goes to overflow pages. */
  function LeafSize(env: Env, e: Entry): nat {
    var sz := NODESIZE + env.ksize(e.key) + |e.val|;
    Even((if sz > NodeMax(env) then sz - |e.val| + PGNO else sz) + INDX)
  }

  /** mdb_branch_size, rounded as mdb_node_add rounds it. */
  function BranchSize(env: Env, k: Key): nat {
    Even(NODESIZE + env.ksize(k) + INDX)
  }

  /** A node without a key, as in slot 0 of a branch. */
  const SLOT0 := 10

  function LeafUsed(env: Env, es: seq<Entry>): nat {
    if es == [] then 0 else LeafSize(env, es[0]) + LeafUsed(env, es[1..])
  }

  function SepsUsed(env: Env, seps: seq<Key>): nat {
    if seps == [] then 0 else BranchSize(env, seps[0]) + SepsUsed(env, seps[1..])
  }

  function Used(env: Env, t: Tree): nat {
    match t
    case Leaf(es) => LeafUsed(env, es)
    case Branch(seps, _) => SLOT0 + SepsUsed(env, seps)
  }

  // ---------------------------------------------------------------- contents

  function Items(t: Tree): seq<Entry>
    decreases t, 0
  {
    match t
    case Leaf(es) => es
    case Branch(_, kids) => Flat(kids)
  }

  function Flat(kids: seq<Tree>): seq<Entry>
    decreases kids, 1
  {
    if kids == [] then [] else Items(kids[0]) + Flat(kids[1..])
  }

  lemma {:induction false} FlatConcat(a: seq<Tree>, b: seq<Tree>)
    ensures Flat(a + b) == Flat(a) + Flat(b)
    decreases a
  {
    if a == [] {
      assert a + b == b;
    } else {
      assert (a + b)[1..] == a[1..] + b;
      FlatConcat(a[1..], b);
    }
  }

  lemma FlatSnoc(kids: seq<Tree>, i: nat)
    requires i < |kids|
    ensures Flat(kids[..i + 1]) == Flat(kids[..i]) + Items(kids[i])
  {
    SliceSnoc(kids, i);
    FlatConcat(kids[..i], [kids[i]]);
    FlatOne(kids[i]);
  }

  lemma FlatOne(t: Tree)
    ensures Flat([t]) == Items(t)
  {}

  lemma CutOnce<T>(s: seq<T>, i: nat)
    requires i <= |s|
    ensures s == s[..i] + s[i..]
  {}

  lemma SliceSnoc<T>(s: seq<T>, i: nat)
    requires i < |s|
    ensures s[..i + 1] == s[..i] + [s[i]]
  {}

  lemma SliceOne<T>(s: seq<T>, i: nat)
    requires i < |s|
    ensures s[i..i + 1] == [s[i]]
  {}

  lemma MiddleSlices<T>(a: seq<T>, b: seq<T>, c: seq<T>, i: nat, j: nat)
    requires i <= |b| && j <= |b|
    ensures (a + b + c)[..|a| + i] == a + b[..i] && (a + b + c)[|a| + j..] == b[j..] + c
    ensures i < |b| ==> (a + b + c)[|a| + i] == b[i]
  {}

  lemma CutTwice<T>(s: seq<T>, i: nat, j: nat)
    requires i <= j <= |s|
    ensures s == s[..i] + s[i..j] + s[j..]
  {
    CutOnce(s, j);
    CutOnce(s[..j], i);
    assert s[..j][..i] == s[..i] && s[..j][i..] == s[i..j];
  }

  // ---------------------------------------------------------------- well-formed trees

  predicate SortedEntries(es: seq<Entry>) {
    forall i, j :: 0 <= i < j < |es| ==> es[i].key < es[j].key
  }

  predicate EntriesWithin(es: seq<Entry>, lo: Bound, hi: Bound) {
    forall i :: 0 <= i < |es| ==> AtLeast(lo, es[i].key) && Below(es[i].key, hi)
  }

  predicate SepsWithin(seps: seq<Key>, lo: Bound, hi: Bound) {
    && (forall i, j :: 0 <= i < j < |seps| ==> seps[i] < seps[j])
    && (forall i :: 0 <= i < |seps| ==> Above(lo, seps[i]) && Below(seps[i], hi))
  }

  function KidLo(seps: seq<Key>, lo: Bound, i: nat): Bound
    requires i <= |seps|
  {
    if i == 0 then lo else At(seps[i - 1])
  }

  function KidHi(seps: seq<Key>, hi: Bound, i: nat): Bound
    requires i <= |seps|
  {
    if i == |seps| then hi else At(seps[i])
  }

  function NumKeys(t: Tree): nat {
    match t
    case Leaf(es) => |es|
    case Branch(_, kids) => |kids|
  }

  function MinKeys(t: Tree): nat {
    if t.Leaf? then 1 else 2
  }

  /** Children and separators of a branch of height d + 1 that holds the keys lo .. hi. */
  predicate KidsOk(env: Env, seps: seq<Key>, kids: seq<Tree>, d: nat, lo: Bound, hi: Bound)
    decreases kids, 1
  {
    && |kids| == |seps| + 1
    && SepsWithin(seps, lo, hi)
    && forall i :: 0 <= i < |kids| ==> Valid(env, kids[i], d, KidLo(seps, lo, i), KidHi(seps, hi, i))
  }

  /** A page of height d for keys lo .. hi that fits, but may have too few keys. */
  predicate Weak(env: Env, t: Tree, d: nat, lo: Bound, hi: Bound)
    decreases t, 2
  {
    && Used(env, t) <= PMax(env)
    && match t
       case Leaf(es) => d == 0 && SortedEntries(es) && EntriesWithin(es, lo, hi)
       case Branch(seps, kids) => d > 0 && KidsOk(env, seps, kids, d - 1, lo, hi)
  }

  /** A page of height d for keys lo .. hi, with everything below it. */
  predicate Valid(env: Env, t: Tree, d: nat, lo: Bound, hi: Bound)
    decreases t, 3
  {
    Weak(env, t, d, lo, hi) && NumKeys(t) >= MinKeys(t)
  }
}
