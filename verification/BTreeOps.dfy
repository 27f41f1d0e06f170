/**
  Putting and deleting one key: page splits on the way up, borrowing from or merging with a
  neighbour after a deletion, growing and collapsing the root.
 */
module BTreeOps {
  import opened Options
  import opened BTree
  import opened BTreeShape
  import opened SplitPoint

  /** What becomes of a page: itself, two pages and the key between them, or MDB_PAGE_FULL. */
  datatype Grown = One(t: Tree) | Two(l: Tree, sep: Key, r: Tree) | PageFull

  // ---------------------------------------------------------------- search

  /** The first index whose key is not below `k`. */
  function FirstAtLeast(keys: seq<Key>, k: Key): (i: nat)
    ensures i <= |keys|
    ensures forall j :: 0 <= j < i ==> keys[j] < k
    ensures i < |keys| ==> keys[i] >= k
  {
    if keys == [] || keys[0] >= k then 0 else 1 + FirstAtLeast(keys[1..], k)
  }

  function KeysOf(es: seq<Entry>): (ks: seq<Key>)
    ensures |ks| == |es| && forall i :: 0 <= i < |es| ==> ks[i] == es[i].key
  {
    seq(|es|, i requires 0 <= i < |es| => es[i].key)
  }

  function EntryIndex(es: seq<Entry>, k: Key): (i: nat)
    ensures i <= |es|
    ensures forall j :: 0 <= j < i ==> es[j].key < k
    ensures i < |es| ==> es[i].key >= k
  {
    FirstAtLeast(KeysOf(es), k)
  }

  /** The child to follow: an exact separator match goes to its right. */
  function KidIndex(seps: seq<Key>, k: Key): (i: nat)
    ensures i <= |seps|
  {
    var i := FirstAtLeast(seps, k);
    if i < |seps| && seps[i] == k then i + 1 else i
  }

  function Find(es: seq<Entry>, k: Key): (v: Option<Val>) {
    if HasKey(es, k) then Some(es[EntryIndex(es, k)].val) else None
  }

  /** mdb_get below a page. */
  function Lookup(t: Tree, k: Key): Option<Val> {
    match t
    case Leaf(es) => Find(es, k)
    case Branch(seps, kids) => if KidIndex(seps, k) < |kids| then Lookup(kids[KidIndex(seps, k)], k) else None
  }

  // ---------------------------------------------------------------- splitting

  function LeafSizes(env: Env, es: seq<Entry>): (r: seq<nat>)
    ensures |r| == |es| && forall i :: 0 <= i < |es| ==> r[i] == LeafSize(env, es[i])
    ensures Sum(r) == LeafUsed(env, es)
  {
    if es == [] then [] else [LeafSize(env, es[0])] + LeafSizes(env, es[1..])
  }

  function SepSizes(env: Env, seps: seq<Key>): (r: seq<nat>)
    ensures |r| == |seps| && forall i :: 0 <= i < |seps| ==> r[i] == BranchSize(env, seps[i])
    ensures Sum(r) == SepsUsed(env, seps)
  {
    if seps == [] then [] else [BranchSize(env, seps[0])] + SepSizes(env, seps[1..])
  }

  function BranchSizes(env: Env, seps: seq<Key>): (r: seq<nat>)
    ensures |r| == |seps| + 1 && r[0] == SLOT0 && forall i :: 0 <= i < |seps| ==> r[i + 1] == BranchSize(env, seps[i])
    ensures Sum(r) == SLOT0 + SepsUsed(env, seps)
  {
    [SLOT0] + SepSizes(env, seps)
  }

  /** Split a leaf whose entries already include the new one, at `newindx`. */
  function SplitLeaf(env: Env, es: seq<Entry>, newindx: nat): Grown
    requires newindx < |es|
  {
    if |es| < 3 then PageFull else  // a page that overflows has at least two entries already
      var s := SplitIndex(LeafSizes(env, es), newindx, PMax(env));
      if 0 < s < |es| && LeafUsed(env, es[..s]) <= PMax(env) && LeafUsed(env, es[s..]) <= PMax(env)
      then Two(Leaf(es[..s]), es[s].key, Leaf(es[s..]))
      else PageFull
  }

  /** Split a branch whose separators already include the new one, before child `newindx`. */
  function SplitBranch(env: Env, seps: seq<Key>, kids: seq<Tree>, newindx: nat): Grown
    requires |kids| == |seps| + 1 && newindx < |kids|
  {
    if |kids| < 3 then PageFull else
      var s := SplitIndex(BranchSizes(env, seps), newindx, PMax(env));
      if 0 < s < |kids| && SLOT0 + SepsUsed(env, seps[..s - 1]) <= PMax(env) &&
        SLOT0 + SepsUsed(env, seps[s..]) <= PMax(env)
      then Two(Branch(seps[..s - 1], kids[..s]), seps[s - 1], Branch(seps[s..], kids[s..]))
      else PageFull
  }

  // ---------------------------------------------------------------- put

  predicate HasKey(es: seq<Entry>, k: Key) {
    var i := EntryIndex(es, k);
    i < |es| && es[i].key == k
  }

  /** The entries without the one for `k`, if there is one. */
  function Without(es: seq<Entry>, k: Key): (r: seq<Entry>)
    ensures |r| == (if HasKey(es, k) then |es| - 1 else |es|) && EntryIndex(es, k) <= |r|
  {
    var i := EntryIndex(es, k);
    if HasKey(es, k) then es[..i] + es[i + 1..] else es
  }

  /** The entries with `e`, in place of one with the same key. */
  function With(es: seq<Entry>, e: Entry): (r: seq<Entry>)
    ensures |r| == |Without(es, e.key)| + 1
  {
    var i, base := EntryIndex(es, e.key), Without(es, e.key);
    base[..i] + [e] + base[i..]
  }

  /** Store `e` in a leaf: delete an entry with the same key, then add or split. */
  function PutLeaf(env: Env, es: seq<Entry>, e: Entry): Grown {
    if PMax(env) - LeafUsed(env, Without(es, e.key)) < LeafSize(env, e)
    then SplitLeaf(env, With(es, e), EntryIndex(es, e.key))
    else One(Leaf(With(es, e)))
  }

  /** A child became two: add the separator to the parent, splitting it if necessary. */
  function AddKid(env: Env, seps: seq<Key>, kids: seq<Tree>, i: nat, l: Tree, m: Key, r: Tree): Grown
    requires |kids| == |seps| + 1 && i < |kids|
  {
    var seps' := seps[..i] + [m] + seps[i..];
    var kids' := kids[..i] + [l, r] + kids[i + 1..];
    if PMax(env) - (SLOT0 + SepsUsed(env, seps)) < NODESIZE + env.ksize(m) + INDX
    then SplitBranch(env, seps', kids', i + 1)
    else One(Branch(seps', kids'))
  }

  function SetKid(env: Env, seps: seq<Key>, kids: seq<Tree>, i: nat, g: Grown): Grown
    requires |kids| == |seps| + 1 && i < |kids|
  {
    match g
    case One(t) => One(Branch(seps, kids[i := t]))
    case Two(l, m, r) => AddKid(env, seps, kids, i, l, m, r)
    case PageFull => PageFull
  }

  function Put(env: Env, t: Tree, e: Entry): Grown {
    match t
    case Leaf(es) => PutLeaf(env, es, e)
    case Branch(seps, kids) =>
      var i := KidIndex(seps, e.key);
      if |kids| == |seps| + 1 then SetKid(env, seps, kids, i, Put(env, kids[i], e)) else PageFull
  }

  // ---------------------------------------------------------------- delete

  /** PAGEFILL, in tenths of a percent. */
  function Fill(env: Env, t: Tree): int
    requires env.psize > PAGEHDRSZ
  {
    1000 * Used(env, t) / PMax(env)
  }

  predicate Underfull(env: Env, t: Tree)
    requires env.psize > PAGEHDRSZ
  {
    !(Fill(env, t) >= FILL_THRESHOLD && NumKeys(t) >= MinKeys(t))
  }

  /** A neighbour that can spare a node. */
  predicate Rich(env: Env, t: Tree)
    requires env.psize > PAGEHDRSZ
  {
    Fill(env, t) >= FILL_THRESHOLD && NumKeys(t) > MinKeys(t)
  }

  /** mdb_update_key on the separator before child i + 1; it may split the branch. */
  function UpdateSep(env: Env, seps: seq<Key>, kids: seq<Tree>, i: nat, m: Key): Grown
    requires |kids| == |seps| + 1 && i < |seps|
  {
    var delta := Even(env.ksize(m)) - Even(env.ksize(seps[i]));
    if delta > 0 && PMax(env) - (SLOT0 + SepsUsed(env, seps)) < delta
    then SplitBranch(env, seps[i := m], kids, i + 1)
    else One(Branch(seps[i := m], kids))
  }

  /** mdb_node_move from the right neighbour: its first node goes to the end of `l`. */
  function MoveLeft(l: Tree, r: Tree): (Tree, Key, Tree) {
    match (l, r)
    case (Leaf(a), Leaf(b)) => if |b| < 2 then (l, 0, r) else (Leaf(a + [b[0]]), b[1].key, Leaf(b[1..]))
    case (Branch(s, a), Branch(u, b)) =>
      if |b| < 2 || |u| < 1 then (l, 0, r)
      else (Branch(s + [Lowest(r)], a + [b[0]]), u[0], Branch(u[1..], b[1..]))
    case _ => (l, 0, r)
  }

  /** mdb_node_move from the left neighbour: its last node goes to the front of `r`. */
  function MoveRight(l: Tree, r: Tree): (Tree, Key, Tree) {
    match (l, r)
    case (Leaf(a), Leaf(b)) =>
      if |a| < 1 then (l, 0, r) else (Leaf(a[..|a| - 1]), a[|a| - 1].key, Leaf([a[|a| - 1]] + b))
    case (Branch(s, a), Branch(u, b)) =>
      if |a| < 1 || |s| < 1 then (l, 0, r)
      else (Branch(s[..|s| - 1], a[..|a| - 1]), s[|s| - 1], Branch([Lowest(r)] + u, [a[|a| - 1]] + b))
    case _ => (l, 0, r)
  }

  /** mdb_page_merge */
  function Merge(l: Tree, r: Tree): Tree {
    match (l, r)
    case (Leaf(a), Leaf(b)) => Leaf(a + b)
    case (Branch(s, a), Branch(u, b)) => Branch(s + [Lowest(r)] + u, a + b)
    case _ => l
  }

  /** A page after a deletion; `check` asks the caller to rebalance it. */
  datatype Shrunk = NotFound | Done(g: Grown, check: bool)

  /** A branch after children j and j + 1 became one. */
  function Joined(seps: seq<Key>, kids: seq<Tree>, j: nat, t: Tree): Tree
    requires |kids| == |seps| + 1 && j < |seps|
  {
    Branch(seps[..j] + seps[j + 1..], kids[..j] + [t] + kids[j + 2..])
  }

  /** mdb_rebalance of child i, whose new content is `c`. */
  function Rebalance(env: Env, seps: seq<Key>, kids: seq<Tree>, i: nat, c: Tree): Shrunk
    requires |kids| == |seps| + 1 && i < |kids| && env.psize > PAGEHDRSZ
  {
    if !Underfull(env, c) || |kids| < 2 then Done(One(Branch(seps, kids[i := c])), false)
    else if i == 0 then
      var n := kids[1];
      if Rich(env, n) then
        var (l, m, r) := MoveLeft(c, n);
        Done(UpdateSep(env, seps, kids[0 := l][1 := r], 0, m), false)
      else Done(One(Joined(seps, kids, 0, Merge(c, n))), true)
    else
      var n := kids[i - 1];
      if Rich(env, n) then
        var (l, m, r) := MoveRight(n, c);
        Done(UpdateSep(env, seps, kids[i - 1 := l][i := r], i - 1, m), false)
      else Done(One(Joined(seps, kids, i - 1, Merge(n, c))), true)
  }

  function Delete(env: Env, t: Tree, k: Key): Shrunk
    requires env.psize > PAGEHDRSZ
  {
    match t
    case Leaf(es) =>
      if HasKey(es, k) then Done(One(Leaf(Without(es, k))), true) else NotFound
    case Branch(seps, kids) =>
      var i := KidIndex(seps, k);
      if |kids| != |seps| + 1 then NotFound else
        var s := Delete(env, kids[i], k);
        if s.NotFound? then NotFound else AfterKid(env, seps, kids, i, s)
  }

  /** A branch after a deletion below its child i. */
  function AfterKid(env: Env, seps: seq<Key>, kids: seq<Tree>, i: nat, s: Shrunk): Shrunk
    requires |kids| == |seps| + 1 && i < |kids| && env.psize > PAGEHDRSZ && s.Done?
  {
    if s.check && s.g.One? then Rebalance(env, seps, kids, i, s.g.t) else Done(SetKid(env, seps, kids, i, s.g), false)
  }

  // ---------------------------------------------------------------- the database

  /** A database: its root page if it has one, md_depth and md_entries. */
  datatype Db = Db(root: Option<Tree>, depth: nat, entries: nat)

  function Get(db: Db, k: Key): Option<Val> {
    if db.root.None? then None else Lookup(db.root.value, k)
  }

  /** mdb_put: a new root leaf, or a put below the root, which may split; None stands for MDB_PAGE_FULL. */
  function PutDb(env: Env, db: Db, e: Entry): Option<Db> {
    var entries := db.entries + if Get(db, e.key).None? then 1 else 0;
    if db.root.None? then Some(Db(Some(Leaf([e])), db.depth + 1, entries)) else
      match Put(env, db.root.value, e)
      case One(t) => Some(Db(Some(t), db.depth, entries))
      case Two(l, m, r) => Some(Db(Some(Branch([m], [l, r])), db.depth + 1, entries))
      case PageFull => None
  }

  /** mdb_rebalance at the root: an empty leaf goes away, a branch with one child collapses. */
  function RebalanceRoot(env: Env, t: Tree, depth: nat, entries: nat): Db
    requires env.psize > PAGEHDRSZ
  {
    if Underfull(env, t) && NumKeys(t) == 0 then Db(None, 0, entries)
    else if Underfull(env, t) && t.Branch? && |t.kids| == 1 && depth > 0 then Db(Some(t.kids[0]), depth - 1, entries)
    else Db(Some(t), depth, entries)
  }

  /** mdb_del: NotFound leaves the database as it is. */
  function DeleteDb(env: Env, db: Db, k: Key): Option<Db>
    requires env.psize > PAGEHDRSZ
  {
    if db.root.None? then Some(db) else
      var entries := if db.entries > 0 then db.entries - 1 else 0;
      match Delete(env, db.root.value, k)
      case NotFound => Some(db)
      case Done(One(t), true) => Some(RebalanceRoot(env, t, db.depth, entries))
      case Done(One(t), false) => Some(Db(Some(t), db.depth, entries))
      case Done(Two(l, m, r), _) => Some(Db(Some(Branch([m], [l, r])), db.depth + 1, entries))
      case Done(PageFull, _) => None
  }
}
