/**
  The compacting copy of a committed snapshot: page conservation gives the page counts from
  which the copy computes the number of the main root before it has written anything.
 */
module CopyCommitted {
  import opened Recycler
  import opened RecyclerTrees
  import opened RecyclerTheorems
  import C = CompactCopy

  // ---------------------------------------------------------------- a tree stored in the pages of a snapshot

  /** The pages the children of a branch start at. */
  function KidTops(kids: seq<C.Tree>): multiset<PgNo> {
    if kids == [] then multiset{} else multiset{kids[0].pgno} + KidTops(kids[1..])
  }

  /** The pages a leaf node refers to: its whole overflow run, or the root of a named database. */
  function ItemTops(item: C.Item): multiset<PgNo> {
    match item
    case Plain(_) => multiset{}
    case Big(pgno, pages, _) => multiset(Run(pgno, pages))
    case Sub(_, db) => if db.Empty? then multiset{} else multiset{db.t.pgno}
  }

  function ItemsTops(items: seq<C.Item>): multiset<PgNo> {
    if items == [] then multiset{} else ItemTops(items[0]) + ItemsTops(items[1..])
  }

  /** Each page of the tree is in the view and refers to just the pages below it, each once. */
  ghost predicate Stores(view: map<PgNo, Page>, t: C.Tree)
    decreases t, 0
  {
    && t.pgno in view
    && match t
       case Leaf(pgno, items) => multiset(view[pgno].refs) == ItemsTops(items) && StoresItems(view, items)
       case Branch(pgno, _, kids) => multiset(view[pgno].refs) == KidTops(kids) && StoresKids(view, kids)
  }

  ghost predicate StoresKids(view: map<PgNo, Page>, kids: seq<C.Tree>)
    decreases kids, 1
  {
    kids == [] || (Stores(view, kids[0]) && StoresKids(view, kids[1..]))
  }

  ghost predicate StoresItem(view: map<PgNo, Page>, item: C.Item)
    decreases item, 1
  {
    match item
    case Plain(_) => true
    case Big(pgno, pages, _) => forall p :: p in Run(pgno, pages) ==> p in view && view[p].refs == {}
    case Sub(_, db) => db.Root? ==> Stores(view, db.t)
  }

  ghost predicate StoresItems(view: map<PgNo, Page>, items: seq<C.Item>)
    decreases items, 1
  {
    items == [] || (StoresItem(view, items[0]) && StoresItems(view, items[1..]))
  }

  // ---------------------------------------------------------------- it has as many pages as are reached

  /** Overflow pages refer to nothing: below a run there is the run. */
  lemma BelowRun(view: map<PgNo, Page>, run: set<PgNo>)
    requires forall p :: p in run ==> p in view && view[p].refs == {}
    ensures Below(view, run) == run
  {
    forall p ensures p in Below(view, run) <==> p in run {
      if p in run { ReachedTop(view, run, p); }
      if path :| WalkTo(view, run, path, p) {
        assert |path| > 1 ==> path[1] in view[path[0]].refs;
      }
    }
  }

  /** The tops taken first and the others. */
  lemma Peel(view: map<PgNo, Page>, tops: set<PgNo>, first: set<PgNo>, rest: multiset<PgNo>)
    requires multiset(tops) == multiset(first) + rest && Apart(view, tops)
    ensures first <= tops && multiset(tops - first) == rest
    ensures Apart(view, first) && Apart(view, tops - first)
    ensures |Below(view, tops)| == |Below(view, first)| + |Below(view, tops - first)|
  {
    hide Apart, Below;
    forall p | p in first ensures p in tops { assert p in multiset(first) + rest; }
    assert tops == first + (tops - first);
    assert multiset(tops) == multiset(first) + multiset(tops - first);
    assert multiset(tops - first) == multiset(tops) - multiset(first) == rest;
    ApartNarrower(view, tops, first);
    ApartNarrower(view, tops, tops - first);
    BelowSum(view, first, tops - first);
  }

  /** A stored tree has as many pages as are reached from its root. */
  lemma {:induction false} StoredCount(view: map<PgNo, Page>, t: C.Tree)
    requires Stores(view, t) && Apart(view, {t.pgno})
    ensures |Below(view, {t.pgno})| == C.PageCount(t)
    decreases t, 0
  {
    hide Apart, Below;
    BelowOne(view, t.pgno);
    ReachedTop(view, {t.pgno}, t.pgno);
    ApartRefs(view, {t.pgno}, t.pgno);
    match t
    case Leaf(pgno, items) => StoredItemsCount(view, items, view[pgno].refs);
    case Branch(pgno, _, kids) => StoredKidsCount(view, kids, view[pgno].refs);
  }

  lemma {:induction false} StoredKidsCount(view: map<PgNo, Page>, kids: seq<C.Tree>, tops: set<PgNo>)
    requires StoresKids(view, kids) && multiset(tops) == KidTops(kids) && Apart(view, tops)
    ensures |Below(view, tops)| == C.KidCount(kids)
    decreases kids, 1
  {
    hide Apart, Below;
    if kids == [] {
      assert tops == {} by { NoTops(tops); }
      BelowNothing(view);
    } else {
      assert multiset{kids[0].pgno} == multiset({kids[0].pgno});
      Peel(view, tops, {kids[0].pgno}, KidTops(kids[1..]));
      StoredCount(view, kids[0]);
      StoredKidsCount(view, kids[1..], tops - {kids[0].pgno});
    }
  }

  lemma NoTops(tops: set<PgNo>)
    requires multiset(tops) == multiset{}
    ensures tops == {}
  {
    forall p ensures p !in tops { assert p in tops <==> p in multiset(tops); }
  }

  lemma {:induction false} StoredItemsCount(view: map<PgNo, Page>, items: seq<C.Item>, tops: set<PgNo>)
    requires StoresItems(view, items) && multiset(tops) == ItemsTops(items) && Apart(view, tops)
    ensures |Below(view, tops)| == C.ItemsCount(items)
    decreases items, 1
  {
    hide Apart, Below;
    if items == [] {
      NoTops(tops);
      BelowNothing(view);
    } else {
      var first := TopsOf(items[0]);
      Peel(view, tops, first, ItemsTops(items[1..]));
      StoredItemCount(view, items[0], first);
      StoredItemsCount(view, items[1..], tops - first);
    }
  }

  function TopsOf(item: C.Item): (r: set<PgNo>)
    ensures multiset(r) == ItemTops(item)
  {
    match item
    case Plain(_) => {}
    case Big(pgno, pages, _) => Run(pgno, pages)
    case Sub(_, db) => if db.Empty? then {} else {db.t.pgno}
  }

  lemma {:induction false} StoredItemCount(view: map<PgNo, Page>, item: C.Item, tops: set<PgNo>)
    requires StoresItem(view, item) && tops == TopsOf(item) && Apart(view, tops)
    ensures |Below(view, tops)| == C.ItemCount(item)
    decreases item, 1
  {
    hide Apart, Below;
    match item
    case Plain(_) => BelowNothing(view);
    case Big(pgno, pages, _) => BelowRun(view, Run(pgno, pages));
    case Sub(_, db) =>
      if db.Empty? {
        BelowNothing(view);
      } else {
        StoredCount(view, db.t);
      }
  }

  // ---------------------------------------------------------------- the copy

  /** The snapshot's trees: the freeDB below `freeRoots`, and the main database. */
  ghost predicate Describes(m: Meta, freeRoots: set<PgNo>, main: C.Db) {
    && (main.Empty? ==> m.roots == freeRoots)
    && (main.Root? ==> m.roots == freeRoots + {main.t.pgno} && main.t.pgno !in freeRoots && Stores(m.view, main.t))
  }

  /** What mdb_env_copyfd1 counts as free: all freeDB entries, and the pages of the freeDB itself. */
  ghost function CountedFree(m: Meta, freeRoots: set<PgNo>): nat {
    FreeCount(m.freedb) + |Below(m.view, freeRoots)|
  }

  lemma CommittedCount(m: Meta, freeRoots: set<PgNo>, main: C.Db)
    requires MetaOk(m) && Describes(m, freeRoots, main)
    ensures m.next == C.NUM_METAS + CountedFree(m, freeRoots) + C.DbCount(main)
  {
    hide Below, Stores, Conserved, TreeCount, AllReached;
    AuditSum(m);
    RootsAreApart(m.roots, m.view);
    TreeCountBelow(m.view, m.roots);
    hide OneReferrer, Apart;
    if main.Root? {
      BelowSum(m.view, freeRoots, {main.t.pgno});
      ApartNarrower(m.view, m.roots, {main.t.pgno});
      StoredCount(m.view, main.t);
    }
  }

  /**
    In every run, for every snapshot that may still be read, the root number the copy computes
    from page counts is the one the walk gives the main root, exactly when the main database is
    not empty; and then the copy holds the main tree under that root.
   */
  lemma CopyOfCommitted(states: seq<State>, steps: seq<Step>, i: nat, m: Meta, freeRoots: set<PgNo>, main: C.Db)
    requires IsRun(states, steps) && NoLooseAbort(states, steps) && i < |states| && Readable(states[i], m)
    requires Describes(m, freeRoots, main) && (main.Root? ==> C.Good(main.t))
    ensures var root := C.LastPg(m.next, CountedFree(m, freeRoots));
      && (root == C.RootNumber(main) <==> main.Root?)
      && (main.Root? ==> root >= 0 && C.Represents(C.Walk(main.t, C.NUM_METAS).out, root, main.t))
  {
    RunInv(states, steps, i);
    assert m in Live(states[i]);
    assert MetaOk(m);
    hide IsRun, NoLooseAbort, Inv, MetaOk, CountedFree;
    CommittedCount(m, freeRoots, main);
    C.RootIsLastPg(main, m.next, CountedFree(m, freeRoots));
    if main.Root? { C.CopyPreserves(main.t, m.next, CountedFree(m, freeRoots)); }
  }
}
