/** A database refines a finite map, under any sequence of puts and deletions. */
module BTreeDb {
  import opened Options
  import opened BTree
  import opened BTreeShape
  import opened BTreeOps
  import opened BTreeProofs
  import opened BTreePut
  import opened BTreeDelete

  // ---------------------------------------------------------------- entries as a map

  function MapOf(es: seq<Entry>): map<Key, Val> {
    if es == [] then map[] else MapOf(es[1..])[es[0].key := es[0].val]
  }

  /** The map holds exactly the entries. */
  lemma {:induction false} MapOfIs(es: seq<Entry>)
    requires SortedEntries(es)
    ensures forall e :: e in es <==> e.key in MapOf(es) && MapOf(es)[e.key] == e.val
    ensures |MapOf(es)| == |es|
    decreases es
  {
    if es != [] {
      var rest := es[1..];
      MapOfIs(rest);
      KeyIsFresh(rest, es[0].key);
      assert MapOf(es).Keys == MapOf(rest).Keys + {es[0].key};
      assert forall e :: e in es <==> e == es[0] || e in rest;
    }
  }

  lemma KeyIsFresh(es: seq<Entry>, k: Key)
    requires forall e :: e in es <==> e.key in MapOf(es) && MapOf(es)[e.key] == e.val
    ensures k in MapOf(es) ==> exists i :: 0 <= i < |es| && es[i].key == k
  {
    if k in MapOf(es) { assert Entry(k, MapOf(es)[k]) in es; }
  }

  lemma SameMap(m: map<Key, Val>, n: map<Key, Val>)
    requires forall e: Entry :: e.key in m && m[e.key] == e.val <==> e.key in n && n[e.key] == e.val
    ensures m == n
  {
    forall k | k in m ensures k in n && n[k] == m[k] { assert Entry(k, m[k]).key in n; }
    forall k | k in n ensures k in m { assert Entry(k, n[k]).key in m; }
  }

  /** In a sorted list, the entry at `i` is the only one with its key. */
  lemma KeyIsUnique(a: seq<Entry>, e: Entry, b: seq<Entry>, x: Entry)
    requires SortedEntries(a + [e] + b)
    ensures x in a || x in b ==> x.key != e.key
  {
    var w := a + [e] + b;
    assert w[|a|] == e;
    if x in a {
      var i :| 0 <= i < |a| && a[i] == x;
      assert w[i] == x;
    } else if x in b {
      var i :| 0 <= i < |b| && b[i] == x;
      assert w[|a| + 1 + i] == x;
    }
  }

  lemma UpsertedMembers(before: seq<Entry>, after: seq<Entry>, e: Entry, x: Entry)
    requires SortedEntries(before) && SortedEntries(after) && Upserted(before, after, e)
    ensures x in after <==> x == e || (x in before && x.key != e.key)
  {
    var i: nat, j: nat :| UpsertedAt(before, after, e, i, j);
    var a, b := before[..i], before[j..];
    CutTwice(before, i, j);
    if j == i + 1 { SliceOne(before, i); }
    KeyIsUnique(a, e, b, x);
    assert x in before <==> x in a || x in before[i..j] || x in b;
    assert x in after <==> x in a || x == e || x in b;
  }

  lemma RemovedMembers(before: seq<Entry>, after: seq<Entry>, k: Key, x: Entry)
    requires SortedEntries(before) && Removed(before, after, k)
    ensures x in after <==> x in before && x.key != k
  {
    var i: nat :| RemovedAt(before, after, k, i);
    assert before == before[..i] + [before[i]] + before[i + 1..];
    KeyIsUnique(before[..i], before[i], before[i + 1..], x);
  }

  lemma UpsertedIsMapUpdate(before: seq<Entry>, after: seq<Entry>, e: Entry)
    requires SortedEntries(before) && SortedEntries(after) && Upserted(before, after, e)
    ensures MapOf(after) == MapOf(before)[e.key := e.val]
  {
    MapOfIs(before);
    MapOfIs(after);
    hide SortedEntries, MapOf;
    forall x: Entry ensures x in after <==> x == e || (x in before && x.key != e.key) {
      UpsertedMembers(before, after, e, x);
    }
    SameMap(MapOf(after), MapOf(before)[e.key := e.val]);
  }

  lemma RemovedIsMapRemove(before: seq<Entry>, after: seq<Entry>, k: Key)
    requires SortedEntries(before) && SortedEntries(after) && Removed(before, after, k)
    ensures MapOf(after) == MapOf(before) - {k}
  {
    MapOfIs(before);
    MapOfIs(after);
    hide SortedEntries, MapOf;
    forall x: Entry ensures x in after <==> x in before && x.key != k { RemovedMembers(before, after, k, x); }
    SameMap(MapOf(after), MapOf(before) - {k});
  }

  lemma HasIsMember(es: seq<Entry>, k: Key)
    requires SortedEntries(es)
    ensures Has(es, k) <==> k in MapOf(es)
  {
    MapOfIs(es);
    if Has(es, k) {
      var i :| 0 <= i < |es| && es[i].key == k;
      assert es[i] in es;
    }
    if k in MapOf(es) {
      var e := Entry(k, MapOf(es)[k]);
      assert e in es;
    }
  }

  // ---------------------------------------------------------------- lookup

  lemma FindOk(es: seq<Entry>, k: Key)
    requires SortedEntries(es)
    ensures Find(es, k) == if k in MapOf(es) then Some(MapOf(es)[k]) else None
  {
    MapOfIs(es);
    HasKeyOk(es, k);
    HasIsMember(es, k);
    assert HasKey(es, k) ==> es[EntryIndex(es, k)] in es;
  }

  /** mdb_get answers as the map does. */
  lemma {:induction false} LookupOk(env: Env, t: Tree, k: Key, d: nat, lo: Bound, hi: Bound)
    requires Weak(env, t, d, lo, hi) && AtLeast(lo, k) && Below(k, hi)
    ensures Lookup(t, k) == if k in MapOf(Items(t)) then Some(MapOf(Items(t))[k]) else None
    decreases t
  {
    ItemsOk(env, t, d, lo, hi);
    match t
    case Leaf(es) => FindOk(es, k);
    case Branch(seps, kids) =>
      var i := KidIndex(seps, k);
      KidIndexOk(seps, k, lo, hi);
      assert Valid(env, kids[i], d - 1, KidLo(seps, lo, i), KidHi(seps, hi, i));
      LookupOk(env, kids[i], k, d - 1, KidLo(seps, lo, i), KidHi(seps, hi, i));
      ItemsOk(env, kids[i], d - 1, KidLo(seps, lo, i), KidHi(seps, hi, i));
      HasBelow(env, seps, kids, k, d - 1, lo, hi);
      KidItems(kids, i);
      hide Valid, Weak, KidsOk, Flat, KidIndex;
      MapOfMiddle(Flat(kids[..i]), Items(kids[i]), Flat(kids[i + 1..]), k);
  }

  lemma MapOfMiddle(a: seq<Entry>, b: seq<Entry>, c: seq<Entry>, k: Key)
    requires SortedEntries(a + b + c) && SortedEntries(b) && (Has(a + b + c, k) <==> Has(b, k))
    ensures k in MapOf(b) <==> k in MapOf(a + b + c)
    ensures k in MapOf(b) ==> MapOf(a + b + c)[k] == MapOf(b)[k]
  {
    MapOfIs(a + b + c);
    MapOfIs(b);
    HasIsMember(a + b + c, k);
    HasIsMember(b, k);
    if k in MapOf(b) {
      assert Entry(k, MapOf(b)[k]) in b;
      assert Entry(k, MapOf(b)[k]) in a + b + c;
    }
  }

  // ---------------------------------------------------------------- databases

  function DbItems(db: Db): seq<Entry> {
    if db.root.None? then [] else Items(db.root.value)
  }

  /** What the database holds. */
  function Contents(db: Db): map<Key, Val> {
    MapOf(DbItems(db))
  }

  ghost predicate DbOk(env: Env, db: Db) {
    && (if db.root.None? then db.depth == 0 else db.depth > 0 && Valid(env, db.root.value, db.depth - 1, Inf, Inf))
    && db.entries == |DbItems(db)|
  }

  lemma DbItemsSorted(env: Env, db: Db)
    requires DbOk(env, db)
    ensures SortedEntries(DbItems(db)) && |Contents(db)| == db.entries
  {
    if db.root.Some? { ItemsOk(env, db.root.value, db.depth - 1, Inf, Inf); }
    MapOfIs(DbItems(db));
  }

  /** mdb_get returns the map's answer, and md_entries is the map's size. */
  lemma GetOk(env: Env, db: Db, k: Key)
    requires DbOk(env, db)
    ensures Get(db, k) == if k in Contents(db) then Some(Contents(db)[k]) else None
    ensures db.entries == |Contents(db)|
  {
    DbItemsSorted(env, db);
    if db.root.Some? { LookupOk(env, db.root.value, k, db.depth - 1, Inf, Inf); }
  }

  /** A root that became two pages under a new root. */
  lemma NewRoot(env: Env, l: Tree, m: Key, r: Tree, d: nat)
    requires EnvOk(env) && GrownOk(env, Two(l, m, r), d, Inf, Inf)
    ensures Valid(env, Branch([m], [l, r]), d + 1, Inf, Inf) && Items(Branch([m], [l, r])) == Items(l) + Items(r)
  {
    TwoKids(env, l, m, r, d, Inf, Inf);
    NodeSizes(env, Entry(0, []), m);
    assert SepsUsed(env, [m]) == BranchSize(env, m);
    ValidBranch(env, [m], [l, r], d, Inf, Inf);
  }

  /** What a put leaves is a database with the new entry in the map. */
  lemma PutDbOk(env: Env, db: Db, e: Entry)
    requires EnvOk(env) && DbOk(env, db)
    ensures var p := PutDb(env, db, e);
      && (p.Some? ==> DbOk(env, p.value) && Contents(p.value) == Contents(db)[e.key := e.val])
      && (p.None? ==> db.root.Some? && Crowded(env, db.root.value, e))
  {
    hide Valid, Weak, Put, Crowded, Items, Upserted, MapOf, Lookup, EnvOk;
    if db.root.None? {
      FirstEntry(env, e);
      NoItems();
    } else {
      var t, d := db.root.value, db.depth - 1;
      var g := Put(env, t, e);
      ValidIsWeak(env, t, d);
      PutOk(env, t, e, d, Inf, Inf);
      match g
      case One(u) => PutRootOk(env, db, u, d, e);
      case Two(l, m, r) =>
        NewRoot(env, l, m, r, d);
        PutRootOk(env, db, Branch([m], [l, r]), d + 1, e);
      case PageFull =>
    }
  }

  lemma ValidIsWeak(env: Env, t: Tree, d: nat)
    requires Valid(env, t, d, Inf, Inf)
    ensures Weak(env, t, d, Inf, Inf) && NumKeys(t) >= MinKeys(t)
  {}

  lemma NoItems()
    ensures MapOf([]) == map[] && forall e: Entry :: Items(Leaf([e])) == [e]
  {}

  lemma FirstEntry(env: Env, e: Entry)
    requires EnvOk(env)
    ensures Valid(env, Leaf([e]), 0, Inf, Inf) && MapOf([e]) == map[][e.key := e.val]
  {
    NodeSizes(env, e, 0);
    assert LeafUsed(env, [e]) == LeafSize(env, e);
    ValidLeaf(env, [e], Inf, Inf);
    assert MapOf([e][1..]) == map[];
  }

  /** A new root page with the entry stored. */
  lemma PutRootOk(env: Env, db: Db, t: Tree, d: nat, e: Entry)
    requires DbOk(env, db) && Valid(env, t, d, Inf, Inf) && Upserted(DbItems(db), Items(t), e)
    ensures var p := Db(Some(t), d + 1, db.entries + if Get(db, e.key).None? then 1 else 0);
      DbOk(env, p) && Contents(p) == Contents(db)[e.key := e.val]
  {
    ItemsOk(env, t, d, Inf, Inf);
    PutCount(env, db, Items(t), e);
  }

  lemma PutCount(env: Env, db: Db, after: seq<Entry>, e: Entry)
    requires DbOk(env, db) && SortedEntries(after) && Upserted(DbItems(db), after, e)
    ensures MapOf(after) == Contents(db)[e.key := e.val]
    ensures |after| == db.entries + if Get(db, e.key).None? then 1 else 0
  {
    var before := DbItems(db);
    DbItemsSorted(env, db);
    GetOk(env, db, e.key);
    UpsertedIsMapUpdate(before, after, e);
    MapOfIs(after);
  }

  lemma RebalanceRootOk(env: Env, t: Tree, depth: nat, entries: nat)
    requires EnvOk(env) && depth > 0 && Weak(env, t, depth - 1, Inf, Inf) && NumKeys(t) >= MinKeys(t) - 1
    requires entries == |Items(t)|
    ensures DbOk(env, RebalanceRoot(env, t, depth, entries)) &&
      DbItems(RebalanceRoot(env, t, depth, entries)) == Items(t)
  {
    WeakShape(env, t, depth - 1, Inf, Inf);
    if t.Branch? && |t.kids| == 1 {
      assert Valid(env, t.kids[0], depth - 2, KidLo(t.seps, Inf, 0), KidHi(t.seps, Inf, 0));
      assert t.kids == [t.kids[0]];
      FlatOne(t.kids[0]);
    }
  }

  /** What a deletion leaves is a database without the key; one that is not there changes nothing. */
  lemma DeleteDbOk(env: Env, db: Db, k: Key)
    requires EnvOk(env) && DbOk(env, db)
    ensures var p := DeleteDb(env, db, k);
      && (p.Some? ==> DbOk(env, p.value) && Contents(p.value) == Contents(db) - {k})
      && (k !in Contents(db) ==> p == Some(db))
      && (p.None? ==> db.root.Some? && CrowdedBranches(db.root.value, k))
  {
    DbItemsSorted(env, db);
    HasIsMember(DbItems(db), k);
    if db.root.Some? {
      var t, d := db.root.value, db.depth - 1;
      DeleteOk(env, t, k, d, Inf, Inf);
      var s := Delete(env, t, k);
      if s.Done? && !s.g.PageFull? {
        DeletedRoot(env, db, s, k);
      } else if s.NotFound? {
        assert Contents(db) - {k} == Contents(db);
      }
    }
  }

  lemma DeletedRoot(env: Env, db: Db, s: Shrunk, k: Key)
    requires EnvOk(env) && DbOk(env, db) && db.root.Some? && Delete(env, db.root.value, k) == s
    requires s.Done? && ShrunkOk(env, s, db.depth - 1, Inf, Inf) && !s.g.PageFull? &&
      Removed(DbItems(db), GrownItems(s.g), k)
    ensures DeleteDb(env, db, k).Some? && DbOk(env, DeleteDb(env, db, k).value)
    ensures Contents(DeleteDb(env, db, k).value) == Contents(db) - {k}
  {
    hide Delete, Valid, Weak, RebalanceRoot, MapOf;
    var after := GrownItems(s.g);
    DbItemsSorted(env, db);
    assert |after| == db.entries - 1;
    match s.g {
      case One(t) =>
        if s.check { RebalanceRootOk(env, t, db.depth, |after|); }
      case Two(l, m, r) => NewRoot(env, l, m, r, db.depth - 1);
    }
    assert DbItems(DeleteDb(env, db, k).value) == after;
    DbItemsSorted(env, DeleteDb(env, db, k).value);
    RemovedIsMapRemove(DbItems(db), after, k);
  }

  // ---------------------------------------------------------------- any sequence of operations

  datatype Op = PutOp(e: Entry) | DelOp(k: Key)

  const EMPTY := Db(None, 0, 0)

  /** The database after the operations; none after an operation that found a page full. */
  function RunOps(env: Env, db: Db, ops: seq<Op>): Option<Db>
    requires env.psize > PAGEHDRSZ
    decreases |ops|
  {
    if ops == [] then Some(db) else
      var next := match ops[0]
                  case PutOp(e) => PutDb(env, db, e)
                  case DelOp(k) => DeleteDb(env, db, k);
      if next.None? then None else RunOps(env, next.value, ops[1..])
  }

  /** The same operations on a map. */
  function RunMap(m: map<Key, Val>, ops: seq<Op>): map<Key, Val>
    decreases |ops|
  {
    if ops == [] then m else
      RunMap(match ops[0] case PutOp(e) => m[e.key := e.val] case DelOp(k) => m - {k}, ops[1..])
  }

  /** The tree refines the map: same contents, well-formed, and md_entries is the size. */
  lemma {:induction false} RunRefinesMap(env: Env, db: Db, ops: seq<Op>)
    requires EnvOk(env) && DbOk(env, db)
    ensures var r := RunOps(env, db, ops);
      r.Some? ==>
        DbOk(env, r.value) && Contents(r.value) == RunMap(Contents(db), ops) &&
        r.value.entries == |RunMap(Contents(db), ops)|
    decreases |ops|
  {
    if ops == [] {
      DbItemsSorted(env, db);
    } else {
      match ops[0]
      case PutOp(e) =>
        PutDbOk(env, db, e);
        if PutDb(env, db, e).Some? { RunRefinesMap(env, PutDb(env, db, e).value, ops[1..]); }
      case DelOp(k) =>
        DeleteDbOk(env, db, k);
        if DeleteDb(env, db, k).Some? { RunRefinesMap(env, DeleteDb(env, db, k).value, ops[1..]); }
    }
  }

  /** After any run on a new database, mdb_get answers what the last operation on the key left. */
  lemma GetAfterRun(env: Env, ops: seq<Op>, k: Key)
    requires EnvOk(env) && RunOps(env, EMPTY, ops).Some?
    ensures var m := RunMap(map[], ops); Get(RunOps(env, EMPTY, ops).value, k) == if k in m then Some(m[k]) else None
  {
    RunRefinesMap(env, EMPTY, ops);
    GetOk(env, RunOps(env, EMPTY, ops).value, k);
  }

  // ---------------------------------------------------------------- binary search in a page

  ghost predicate AscendingFrom(keys: seq<Key>, first: nat) {
    forall i, j :: first <= i < j < |keys| ==> keys[i] < keys[j]
  }

  /**
    mdb_node_search over the node keys of a page; slot 0 of a branch has no key, so the search
    starts at `first` = 1 there (the value in slot 0 is never looked at).
   */
  method NodeSearch(keys: seq<Key>, first: nat, k: Key) returns (i: nat, exact: bool)
    requires first <= 1 && AscendingFrom(keys, first)
    requires |keys| >= 2 * first
    ensures first <= i <= |keys|
    ensures forall j :: first <= j < i ==> keys[j] < k
    ensures forall j :: i <= j < |keys| ==> keys[j] >= k
    ensures exact <==> i < |keys| && keys[i] == k
  {
    i := 0;
    var rc, low, high := 0, first, |keys| - 1;
    while low <= high
      invariant first <= low <= high + 1 <= |keys|
      invariant forall j :: first <= j < low ==> keys[j] < k
      invariant forall j :: high < j < |keys| ==> keys[j] > k
      invariant rc == 0 ==> low == first && high == |keys| - 1 && i == 0
      invariant rc > 0 ==> i + 1 == low
      invariant rc < 0 ==> i == high + 1
      invariant rc != 0 ==> first <= i < |keys|
      decreases high - low
    {
      i := (low + high) / 2;
      rc := k - keys[i];
      if rc == 0 { break; }
      if rc > 0 { low := i + 1; } else { high := i - 1; }
    }
    if rc > 0 { i := i + 1; }
    exact := rc == 0 && |keys| > 0;
  }

  /** The child of a branch to follow. */
  method FollowChild(seps: seq<Key>, k: Key) returns (i: nat)
    requires seps != [] && AscendingFrom(seps, 0)
    ensures i == KidIndex(seps, k)
  {
    var exact;
    var keys := [0] + seps;
    i, exact := NodeSearch(keys, 1, k);
    ghost var f := FirstAtLeast(seps, k);
    assert f < |seps| ==> keys[f + 1] == seps[f];
    assert i - 1 < |seps| ==> keys[i] == seps[i - 1];
    assert f == i - 1;
    if i >= |seps| + 1 { i := |seps|; } else if !exact { i := i - 1; }
  }

  /** mdb_page_search_root: descend to the leaf that would hold `k`. */
  method PageSearchRoot(root: Tree, k: Key, ghost env: Env, ghost depth: nat) returns (es: seq<Entry>)
    requires BTree.Valid(env, root, depth, Inf, Inf)
    ensures SortedEntries(es) && Find(es, k) == Lookup(root, k)
  {
    var t := root;
    ghost var d, lo, hi := depth, Inf, Inf;
    while t.Branch?
      invariant d >= 0 && Weak(env, t, d, lo, hi) && NumKeys(t) >= MinKeys(t) && AtLeast(lo, k) && Below(k, hi)
      invariant Lookup(root, k) == Lookup(t, k)
      decreases d
    {
      DescendStep(env, t, d, lo, hi, k);
      var i := FollowChild(t.seps, k);
      hide Weak, KidIndex;
      lo, hi := KidLo(t.seps, lo, i), KidHi(t.seps, hi, i);
      t, d := t.kids[i], d - 1;
    }
    es := t.es;
  }

  datatype Code = Success | KeyNotFound | PageIsFull | BadTxn

  /** A database handle in a write transaction. */
  class Database {
    const env: Env
    var root: Option<Tree>
    var depth: nat
    var entries: nat
    var failed: bool  // MDB_TXN_ERROR

    ghost function State(): Db
      reads this
    {
      Db(root, depth, entries)
    }

    ghost predicate Valid()
      reads this
    {
      EnvOk(env) && DbOk(env, State())
    }

    constructor (env: Env)
      requires EnvOk(env)
      ensures Valid() && !failed && Contents(State()) == map[] && this.env == env
    {
      this.env := env;
      root, depth, entries, failed := None, 0, 0, false;
    }

    /** mdb_get */
    method Get(k: Key) returns (code: Code, v: Val)
      requires Valid()
      ensures failed ==> code == BadTxn
      ensures !failed ==> code == if k in Contents(State()) then Success else KeyNotFound
      ensures !failed && k in Contents(State()) ==> v == Contents(State())[k]
    {
      v := [];
      if failed { return BadTxn, v; }
      if root.None? { return KeyNotFound, v; }
      GetOk(env, State(), k);
      var es := PageSearchRoot(root.value, k, env, depth - 1);
      var i, exact := NodeSearch(KeysOf(es), 0, k);
      if exact { return Success, es[i].val; }
      return KeyNotFound, v;
    }

    /** mdb_put: the entry is in the map, or the transaction has failed and can only be aborted. */
    method Put(e: Entry) returns (code: Code)
      requires Valid()
      modifies this
      ensures Valid() && (code.Success? || code.PageIsFull? || code.BadTxn?)
      ensures code == BadTxn <==> old(failed)
      ensures code == PageIsFull ==> old(root.Some? && Crowded(env, root.value, e))
      ensures code == PageIsFull <==> !old(failed) && PutDb(env, old(State()), e).None?
      ensures failed <==> code != Success
      ensures code == Success ==> Contents(State()) == old(Contents(State()))[e.key := e.val]
      ensures code == Success ==> entries == old(entries) + if e.key in old(Contents(State())) then 0 else 1
    {
      if failed { return BadTxn; }
      PutDbOk(env, State(), e);
      GetOk(env, State(), e.key);
      var r := PutDb(env, Db(root, depth, entries), e);
      if r.None? {
        failed := true;
        return PageIsFull;
      }
      root, depth, entries := r.value.root, r.value.depth, r.value.entries;
      return Success;
    }

    /** mdb_del */
    method Del(k: Key) returns (code: Code)
      requires Valid()
      modifies this
      ensures Valid()
      ensures code == BadTxn <==> old(failed)
      ensures code == KeyNotFound <==> !old(failed) && k !in old(Contents(State()))
      ensures code == PageIsFull ==> old(root.Some? && CrowdedBranches(root.value, k))
      ensures code == PageIsFull <==> !old(failed) && DeleteDb(env, old(State()), k).None?
      ensures failed <==> code == BadTxn || code == PageIsFull
      ensures code == KeyNotFound ==> State() == old(State())
      ensures code == Success ==> Contents(State()) == old(Contents(State())) - {k} && entries == old(entries) - 1
    {
      if failed { return BadTxn; }
      DeleteDbOk(env, State(), k);
      GetOk(env, State(), k);
      DbItemsSorted(env, State());
      var found := BTreeOps.Get(Db(root, depth, entries), k).Some?;
      if !found { return KeyNotFound; }
      var r := DeleteDb(env, Db(root, depth, entries), k);
      if r.None? {
        failed := true;
        return PageIsFull;
      }
      root, depth, entries := r.value.root, r.value.depth, r.value.entries;
      DbItemsSorted(env, State());
      return Success;
    }
  }

  /** One page further down. */
  lemma DescendStep(env: Env, t: Tree, d: nat, lo: Bound, hi: Bound, k: Key)
    requires Weak(env, t, d, lo, hi) && NumKeys(t) >= MinKeys(t) && AtLeast(lo, k) && Below(k, hi) && t.Branch?
    ensures d > 0 && |t.kids| == |t.seps| + 1 && AscendingFrom(t.seps, 0) && t.seps != []
    ensures var i := KidIndex(t.seps, k); var c := t.kids[i];
      var lo', hi' := KidLo(t.seps, lo, i), KidHi(t.seps, hi, i);
      && Weak(env, c, d - 1, lo', hi') && NumKeys(c) >= MinKeys(c) && AtLeast(lo', k) && Below(k, hi')
      && Lookup(t, k) == Lookup(c, k)
  {
    var i := KidIndex(t.seps, k);
    KidIndexOk(t.seps, k, lo, hi);
    assert Valid(env, t.kids[i], d - 1, KidLo(t.seps, lo, i), KidHi(t.seps, hi, i));
  }
}
