/** What the recycler promises about every state of every run. */
module RecyclerTheorems {
  import opened Recycler
  import opened RecyclerTrees
  import opened RecyclerProofs
  import opened RecyclerOps

  // ---------------------------------------------------------------- runs

  /** A run from a new environment; `states[i]` is the state before `steps[i]`. */
  ghost predicate IsRun(states: seq<State>, steps: seq<Step>) {
    && |states| == |steps| + 1
    && states[0] == INIT
    && forall i :: 0 <= i < |steps| ==> Enabled(states[i], steps[i]) && states[i + 1] == Apply(states[i], steps[i])
  }

  /** No transaction of the run is aborted while it holds loose pages. */
  ghost predicate NoLooseAbort(states: seq<State>, steps: seq<Step>)
    requires IsRun(states, steps)
  {
    forall i :: 0 <= i < |steps| ==> !AbortsLoose(states[i], steps[i])
  }

  lemma InitInv()
    ensures Inv(INIT)
  {
    var f := Fresh(EMPTY_META);
    assert Forest({}, {}, EMPTY_META.view);
    assert LiveRecs(f) == map[];
    forall p: PgNo ensures Owners(f, p) == 0 {}
  }

  lemma {:induction false} RunInv(states: seq<State>, steps: seq<Step>, i: nat)
    requires IsRun(states, steps) && NoLooseAbort(states, steps) && i < |states|
    ensures Inv(states[i])
  {
    if i == 0 {
      InitInv();
    } else {
      RunInv(states, steps, i - 1);
      StepInv(states[i - 1], steps[i - 1]);
    }
  }

  // ---------------------------------------------------------------- snapshot isolation

  lemma {:induction false} WalkStaysInside(disk: map<PgNo, Page>, m: Meta, path: seq<PgNo>, i: nat)
    requires Intact(disk, m) && OneReferrer(m.roots, {}, m.view) && Walk(disk, m.roots, path) && i < |path|
    ensures path[i] in m.view
  {
    if i > 0 {
      WalkStaysInside(disk, m, path, i - 1);
      assert path[i] in disk[path[i - 1]].refs;
    }
  }

  /** Somebody may read the snapshot `m`: a reader that copied it, or one that opens the environment. */
  ghost predicate Readable(s: State, m: Meta) {
    m == s.meta0 || m == s.meta1 || exists r :: r in s.readers && s.readers[r] == m
  }

  /**
    Snapshot isolation.  In every state of every run, whatever a walk from the roots of a
    live snapshot (either meta page or any reader's copy) meets on disk is the page that
    was committed, and no page number the writer may overwrite is on the way.
   */
  lemma SnapshotIsolation(states: seq<State>, steps: seq<Step>, i: nat, m: Meta, path: seq<PgNo>)
    requires IsRun(states, steps) && NoLooseAbort(states, steps) && i < |states|
    requires Readable(states[i], m) && Walk(states[i].disk, m.roots, path)
    ensures forall j :: 0 <= j < |path| ==>
      && path[j] in m.view && path[j] in states[i].disk && states[i].disk[path[j]] == m.view[path[j]]
      && (states[i].writer.Some? && states[i].writer.value.phase != Written ==>
          var w := states[i].writer.value.work;
          && path[j] !in w.dirty && path[j] !in w.spilled
          && path[j] !in w.loose && path[j] !in w.pghead && path[j] < w.next)
  {
    var s := states[i];
    RunInv(states, steps, i);
    assert m in Live(s);
    forall j | 0 <= j < |path| ensures path[j] in m.view
      ensures s.writer.Some? && s.writer.value.phase != Written ==>
        path[j] !in Overwritable(s.writer.value.work) && path[j] < s.writer.value.work.next
    {
      WalkStaysInside(s.disk, m, path, j);
      if s.writer.Some? && s.writer.value.phase != Written {
        KeptIsSafe(s.writer.value.work, m, path[j]);
      }
    }
  }

  lemma KeptIsSafe(w: Work, m: Meta, p: PgNo)
    requires Conserved(w) && Keeps(w, m) && p in m.view
    ensures p !in Overwritable(w) && p < w.next
  {
    assert Kept(w, m.txnid, p);
    if p in w.loose || p in w.pghead || p >= w.next {
      TakenIsNotKept(w, m.txnid, p);
      assert false;
    }
  }

  lemma ReaderStays(s: State, st: Step, r: Slot)
    requires Enabled(s, st) && r in s.readers && st != EndRead(r) && !st.Crash?
    ensures r in Apply(s, st).readers && Apply(s, st).readers[r] == s.readers[r]
  {}

  /** A reader that neither ends nor is swept away by a crash keeps its snapshot, intact, for as long as it runs. */
  lemma {:induction false} ReaderKeepsSnapshot(states: seq<State>, steps: seq<Step>, r: Slot, i: nat, j: nat)
    requires IsRun(states, steps) && NoLooseAbort(states, steps) && i <= j < |states|
    requires r in states[i].readers
    requires forall k :: i <= k < j ==> steps[k] != EndRead(r) && !steps[k].Crash?
    ensures r in states[j].readers && states[j].readers[r] == states[i].readers[r]
    ensures Intact(states[j].disk, states[i].readers[r])
    decreases j - i
  {
    hide Enabled, Apply, MetaOk, Forest, WriterInv, WorkInv;
    RunInv(states, steps, i);
    assert states[i].readers[r] in Live(states[i]);
    if i < j {
      ReaderStays(states[i], steps[i], r);
      ReaderKeepsSnapshot(states, steps, r, i + 1, j);
    }
  }

  /**
    The meta page selected by the published transaction number holds that transaction; the cached
    oldest is a lower bound.
   */
  lemma PublishedMetaAndOldest(states: seq<State>, steps: seq<Step>, i: nat)
    requires IsRun(states, steps) && NoLooseAbort(states, steps) && i < |states|
    ensures MetaAt(states[i], states[i].mti).txnid == states[i].mti
    ensures forall e, r :: r in states[i].readers ==>
      OldestOf(states[i], e) <= states[i].readers[r].txnid <= states[i].mti
    ensures forall e :: OldestOf(states[i], e) <= states[i].mti
  {
    RunInv(states, steps, i);
  }

  // ---------------------------------------------------------------- crash atomicity

  /** The last meta page a commit of the run wrote before step `i`. */
  ghost function LastCommitted(states: seq<State>, steps: seq<Step>, i: nat): Meta
    requires IsRun(states, steps) && i < |states|
  {
    if i == 0 then EMPTY_META
    else if steps[i - 1].WriteMeta? then OwnMeta(states[i - 1].writer.value)
    else LastCommitted(states, steps, i - 1)
  }

  /** A meta page that describes what a writer has: its number, its trees, its freeDB, its next page number. */
  function OwnMeta(wr: Writer): (m: Meta)
    ensures m.txnid == wr.txnid && m.roots == wr.work.roots && m.view == wr.work.view
    ensures m.freedb == wr.work.freedb && m.next == wr.work.next
  {
    Meta(wr.txnid, wr.work.roots, wr.work.view, wr.work.freedb, wr.work.next)
  }

  lemma {:induction false} PickedIsLastCommitted(states: seq<State>, steps: seq<Step>, i: nat)
    requires IsRun(states, steps) && NoLooseAbort(states, steps) && i < |states|
    ensures Picked(states[i]) == LastCommitted(states, steps, i)
  {
    if i > 0 {
      PickedIsLastCommitted(states, steps, i - 1);
      RunInv(states, steps, i - 1);
      PickedStep(states[i - 1], steps[i - 1]);
    }
  }

  lemma PickedStep(s: State, st: Step)
    requires Inv(s) && Enabled(s, st)
    ensures Picked(Apply(s, st)) == if st.WriteMeta? then OwnMeta(s.writer.value) else Picked(s)
  {
    hide Forest, Keeps, Conserved, CleanOnDisk;
    if st.WriteMeta? { WriteMetaShape(s); }
  }

  /**
    Crash atomicity.  A crash before any step of a run, garbling any of the pages written
    since the last sync, leaves an environment whose picked meta page is the one written
    by the last commit that got as far as its meta page, every page of it intact, its pages
    trees below its roots and every page number accounted for.
   */
  lemma CrashAtomicity(states: seq<State>, steps: seq<Step>, i: nat, garbled: map<PgNo, Page>)
    requires IsRun(states, steps) && NoLooseAbort(states, steps) && i < |states|
    requires garbled.Keys <= WrittenSince(steps, i)
    ensures Enabled(states[i], Crash(garbled))
    ensures var s', m := Apply(states[i], Crash(garbled)), LastCommitted(states, steps, i);
      && (forall p :: p in garbled ==> p in s'.disk && s'.disk[p] == garbled[p])
      && Picked(s') == MetaAt(s', s'.mti) == m
      && Intact(s'.disk, m) && Forest(m.roots, {}, m.view) && Conserved(Fresh(m))
  {
    PickedIsLastCommitted(states, steps, i);
    RunInv(states, steps, i);
    UnsyncedIsWritten(states, steps, i);
    AfterCrash(states[i], garbled);
  }

  /** The pages written since the last sync: what a crash may garble. */
  ghost function WrittenSince(steps: seq<Step>, i: nat): set<PgNo>
    requires i <= |steps|
  {
    if i == 0 then {} else
      match steps[i - 1]
      case Spill(p) => WrittenSince(steps, i - 1) + {p}
      case Flush(p, _) => WrittenSince(steps, i - 1) + {p}
      case Sync => {}
      case Crash(_) => {}
      case _ => WrittenSince(steps, i - 1)
  }

  lemma {:induction false} UnsyncedIsWritten(states: seq<State>, steps: seq<Step>, i: nat)
    requires IsRun(states, steps) && i < |states|
    ensures states[i].unsynced == WrittenSince(steps, i)
  {
    if i > 0 {
      UnsyncedIsWritten(states, steps, i - 1);
      assert Enabled(states[i - 1], steps[i - 1]) && states[i] == Apply(states[i - 1], steps[i - 1]);
    }
  }

  lemma AfterCrash(s: State, g: map<PgNo, Page>)
    requires Inv(s) && g.Keys <= s.unsynced
    ensures var s', m := Crashed(s, g), Picked(s);
      && Picked(s') == MetaAt(s', s'.mti) == m
      && Intact(s'.disk, m) && Forest(m.roots, {}, m.view) && Conserved(Fresh(m))
  {
    var s', m := Crashed(s, g), Picked(s);
    CrashInv(s, g);
    assert m in Live(s') && Picked(s') == m;
  }

  lemma {:induction false} LastCommittedStays(states: seq<State>, steps: seq<Step>, i: nat, j: nat)
    requires IsRun(states, steps) && i <= j < |states|
    requires forall k :: i <= k < j ==> !steps[k].WriteMeta?
    ensures LastCommitted(states, steps, j) == LastCommitted(states, steps, i)
    decreases j
  {
    if i < j { LastCommittedStays(states, steps, i, j - 1); }
  }

  /**
    A commit is one step.  Crashes at any two points of a run with no meta page write between
    them, garbling whatever is unsynced at each, leave the same picked meta page and the same
    contents of all its pages; a meta page write in between replaces it by the writer's.
   */
  lemma CommitIsAtomic(
      states: seq<State>, steps: seq<Step>, i: nat, j: nat, g: map<PgNo, Page>, h: map<PgNo, Page>)
    requires IsRun(states, steps) && NoLooseAbort(states, steps) && i <= j < |states|
    requires g.Keys <= WrittenSince(steps, i) && h.Keys <= WrittenSince(steps, j)
    ensures Enabled(states[i], Crash(g)) && Enabled(states[j], Crash(h))
    ensures (forall k :: i <= k < j ==> !steps[k].WriteMeta?) ==>
      var before, after := Apply(states[i], Crash(g)), Apply(states[j], Crash(h));
      && Picked(before) == Picked(after)
      && forall p :: p in Picked(before).view ==>
          p in before.disk && p in after.disk && before.disk[p] == after.disk[p]
    ensures j == i + 1 && steps[i].WriteMeta? ==>
      Picked(Apply(states[j], Crash(h))) == OwnMeta(states[i].writer.value) != Picked(Apply(states[i], Crash(g)))
  {
    hide Enabled, Apply, Forest, Conserved, Inv, WrittenSince, NoLooseAbort;
    CrashAtomicity(states, steps, i, g);
    CrashAtomicity(states, steps, j, h);
    if forall k :: i <= k < j ==> !steps[k].WriteMeta? {
      LastCommittedStays(states, steps, i, j);
    }
    if j == i + 1 && steps[i].WriteMeta? { CommittedNext(states, steps, i); }
  }

  lemma CommittedNext(states: seq<State>, steps: seq<Step>, i: nat)
    requires IsRun(states, steps) && NoLooseAbort(states, steps) && i < |steps| && steps[i].WriteMeta?
    ensures states[i].writer.Some?
    ensures LastCommitted(states, steps, i + 1) == OwnMeta(states[i].writer.value) != LastCommitted(states, steps, i)
  {
    hide Forest, Conserved, Apply, WorkInv;
    RunInv(states, steps, i);
    PickedIsLastCommitted(states, steps, i);
    CommittedIsNewer(states[i]);
  }

  lemma CommittedIsNewer(s: State)
    requires Inv(s) && InPhase(s, Synced)
    ensures OwnMeta(s.writer.value) != Picked(s)
  {
    PickedIsLatest(s);
  }

  // ---------------------------------------------------------------- page conservation

  /** What mdb_audit adds up: the lengths of all freeDB records. */
  ghost function FreeCount(m: FreeDb): nat
    decreases |m|
  {
    if m == map[] then 0 else
      var k :| k in m;
      assert (m - {k}).Keys == m.Keys - {k};
      |m[k]| + FreeCount(m - {k})
  }

  lemma {:induction false} FreeCountIsFlat(m: FreeDb)
    ensures FreeCount(m) == |Flat(m)|
    decreases |m|
  {
    if m != map[] {
      var k :| k in m && FreeCount(m) == |m[k]| + FreeCount(m - {k});
      assert (m - {k}).Keys == m.Keys - {k};
      FreeCountIsFlat(m - {k});
      FlatRemove(m, k);
    }
  }

  ghost predicate Free1(db: FreeDb, p: PgNo) {
    exists k :: k in db && db[k][p] == 1 && forall j :: j in db && j != k ==> p !in db[j]
  }

  ghost predicate FreeNowhere(db: FreeDb, p: PgNo) {
    forall k :: k in db ==> p !in db[k]
  }

  /** Page `p` is in exactly one tree, at exactly one place: one walk from the roots leads to it. */
  ghost predicate InOneTree(m: Meta, p: PgNo) {
    exists path ::
      && WalkTo(m.view, m.roots, path, p)
      && forall other :: WalkTo(m.view, m.roots, other, p) ==> other == path
  }

  /** Page `p` is exactly one of: a meta page, a page of exactly one tree, one entry of exactly one freeDB record. */
  ghost predicate OnePlace(m: Meta, p: PgNo) {
    || (p < 2 && !Reached(m.view, m.roots, p) && FreeNowhere(m.freedb, p))
    || (2 <= p && InOneTree(m, p) && FreeNowhere(m.freedb, p))
    || (2 <= p && !Reached(m.view, m.roots, p) && Free1(m.freedb, p))
  }

  lemma FlatTwo(m: FreeDb, j: TxnId, k: TxnId, p: PgNo)
    requires j in m && k in m && j != k
    ensures m[j][p] + m[k][p] <= Flat(m)[p]
  {
    FlatRemove(m, j);
    FlatMember(m - {j}, k, p);
  }

  lemma {:induction false} FlatNowhere(db: FreeDb, p: PgNo)
    requires FreeNowhere(db, p)
    ensures p !in Flat(db)
    decreases |db|
  {
    if db != map[] {
      var k :| k in db && Flat(db) == db[k] + Flat(db - {k});
      assert (db - {k}).Keys == db.Keys - {k};
      FlatNowhere(db - {k}, p);
    }
  }

  /** The pages of the trees are those a walk from the roots reaches, each by one walk. */
  lemma ViewIsTrees(m: Meta, p: PgNo)
    requires Forest(m.roots, {}, m.view)
    ensures p in m.view <==> Reached(m.view, m.roots, p)
    ensures p in m.view <==> InOneTree(m, p)
  {
    assert m.roots + {} == m.roots;
    if path :| WalkTo(m.view, m.roots, path, p) {
      WalkInside(m.roots, {}, m.view, path);
      forall other | WalkTo(m.view, m.roots, other, p) ensures other == path {
        WalkUnique(m.roots, {}, m.view, other, path);
      }
    }
  }

  lemma OwnerToPlace(m: Meta, p: PgNo)
    requires MetaOk(m) && p < m.next
    ensures OnePlace(m, p)
  {
    ViewIsTrees(m, p);
    hide Forest, Reached, InOneTree;
    var f, db := Fresh(m), m.freedb;
    assert LiveRecs(f) == db;
    assert Owners(f, p) == if p < 2 then 0 else 1;
    if FreeNowhere(db, p) {
      FlatNowhere(db, p);
    } else {
      var k :| k in db && p in db[k];
      FlatMember(db, k, p);
      forall j | j in db && j != k ensures p !in db[j] { FlatTwo(db, j, k, p); }
    }
  }

  /** The page counts of the trees below `roots`, added up. */
  ghost function TreeCount(view: map<PgNo, Page>, roots: set<PgNo>): nat {
    if roots == {} then 0 else
      var r :| r in roots;
      |Below(view, {r})| + TreeCount(view, roots - {r})
  }

  lemma {:induction false} TreeCountBelow(view: map<PgNo, Page>, roots: set<PgNo>)
    requires Apart(view, roots)
    ensures TreeCount(view, roots) == |Below(view, roots)|
    decreases roots
  {
    hide Apart, Below;
    if roots == {} {
      BelowNothing(view);
    } else {
      var r :| r in roots && TreeCount(view, roots) == |Below(view, {r})| + TreeCount(view, roots - {r});
      ApartNarrower(view, roots, roots - {r});
      TreeCountBelow(view, roots - {r});
      assert roots == {r} + (roots - {r});
      BelowSum(view, {r}, roots - {r});
    }
  }

  lemma ViewSum(m: Meta)
    requires Conserved(Fresh(m)) && KeysUpTo(m.freedb, m.txnid)
    ensures |m.view| + FreeCount(m.freedb) + 2 == m.next
  {
    var f, all: multiset<PgNo> := Fresh(m), multiset(Run(2, m.next - 2));
    assert LiveRecs(f) == m.freedb;
    forall p: PgNo ensures (multiset(m.view.Keys) + Flat(m.freedb))[p] == all[p] {
      assert Owners(f, p) == if 2 <= p < m.next then 1 else 0;
    }
    assert multiset(m.view.Keys) + Flat(m.freedb) == all;
    FreeCountIsFlat(m.freedb);
    assert |multiset(m.view.Keys)| == |m.view.Keys| && |all| == m.next - 2;
  }

  /** The sum mdb_audit checks: pages of every tree, freeDB entries, and two meta pages. */
  lemma AuditSum(m: Meta)
    requires MetaOk(m)
    ensures TreeCount(m.view, m.roots) + FreeCount(m.freedb) + 2 == m.next
  {
    hide Conserved, Reached, TreeCount, InOneTree;
    ViewSum(m);
    RootsAreApart(m.roots, m.view);
    TreeCountBelow(m.view, m.roots);
    hide OneReferrer, AllReached;
    AllBelow(m);
  }

  lemma AllBelow(m: Meta)
    requires Forest(m.roots, {}, m.view)
    ensures Below(m.view, m.roots) == m.view.Keys
  {
    hide Reached, InOneTree, Forest;
    forall p ensures p in Below(m.view, m.roots) <==> p in m.view { ViewIsTrees(m, p); }
  }

  /**
    Page conservation.  Whatever meta page a run has committed, each page number below its
    `next` is exactly one of a meta page, a page of exactly one tree, or one entry of exactly
    one freeDB record; hence the sum mdb_audit checks is an equality.
   */
  lemma PageConservation(states: seq<State>, steps: seq<Step>, i: nat, m: Meta)
    requires IsRun(states, steps) && NoLooseAbort(states, steps) && i < |states| && Readable(states[i], m)
    ensures forall p :: 0 <= p < m.next ==> OnePlace(m, p)
    ensures forall p :: m.next <= p ==> !Reached(m.view, m.roots, p) && FreeNowhere(m.freedb, p)
    ensures TreeCount(m.view, m.roots) + FreeCount(m.freedb) + 2 == m.next
  {
    RunInv(states, steps, i);
    assert m in Live(states[i]);
    assert MetaOk(m);
    hide IsRun, NoLooseAbort, Inv;
    forall p: PgNo | p < m.next ensures OnePlace(m, p) { OwnerToPlace(m, p); }
    forall p: PgNo | m.next <= p ensures !Reached(m.view, m.roots, p) && FreeNowhere(m.freedb, p) { BeyondNext(m, p); }
    AuditSum(m);
  }

  lemma BeyondNext(m: Meta, p: PgNo)
    requires MetaOk(m) && m.next <= p
    ensures !Reached(m.view, m.roots, p) && FreeNowhere(m.freedb, p)
  {
    ViewIsTrees(m, p);
    assert LiveRecs(Fresh(m)) == m.freedb;
    assert Owners(Fresh(m), p) == 0;
    forall k | k in m.freedb ensures p !in m.freedb[k] { FlatMember(m.freedb, k, p); }
  }

  // ---------------------------------------------------------------- loose pages left by an abort

  /**
    mdb_txn_reset0 frees the dirty pages but does not clear the list of loose pages, so the
    next transaction of the same environment handle starts with whatever page numbers the
    freed buffers now hold.  That transaction accounts for every page exactly when the
    aborted one held no loose page, whatever the stale numbers are.
   */
  lemma AbortExactness(s: State, links: seq<PgNo>)
    requires Inv(s) && Enabled(s, Abort(links))
    ensures var s2 := WriteBegun(Apply(s, Abort(links)), s.writer.value.env);
      Conserved(s2.writer.value.work) <==> s.writer.value.work.loose == []
  {
    hide Forest, Keeps, CleanOnDisk, Intact;
    var e := s.writer.value.env;
    var s1 := Apply(s, Abort(links));
    var base := Fresh(MetaAt(s, s.mti));
    var w := base.(loose := links);
    assert LeftoverOf(s1, e) == links && MetaAt(s1, s1.mti) == MetaAt(s, s.mti);
    assert MetaAt(s, s.mti) in Live(s) && Conserved(base);
    assert LiveRecs(w) == LiveRecs(base);
    if links == [] {
      assert w == base;
    } else {
      assert links[0] in multiset(links);
      assert Owners(w, links[0]) > Owners(base, links[0]);
    }
  }

  /** Page number `p` is among those the writer may overwrite. */
  ghost predicate HandsOut(s: State, p: PgNo) {
    s.writer.Some? && p in Overwritable(s.writer.value.work)
  }

  ghost predicate Reachable(s: State) {
    exists states: seq<State>, steps: seq<Step> :: IsRun(states, steps) && states[|steps|] == s
  }

  lemma ReachStep(s: State, st: Step)
    requires Reachable(s) && Enabled(s, st)
    ensures Reachable(Apply(s, st))
  {
    var states: seq<State>, steps: seq<Step> :| IsRun(states, steps) && states[|steps|] == s;
    var states', steps' := states + [Apply(s, st)], steps + [st];
    assert IsRun(states', steps') && states'[|steps'|] == Apply(s, st);
  }

  /** A running transaction may do any run of steps of its own. */
  lemma {:induction false} ReachOps(s: State, ops: seq<WorkStep>, w': Work)
    requires Reachable(s) && InPhase(s, Running) && Leads(s.writer.value.work, ops, w')
    ensures Reachable(SetWork(s, w'))
    decreases |ops|
  {
    hide CanDo, Done, Reachable;
    if ops == [] {
      assert SetWork(s, w') == s;
    } else {
      var w := s.writer.value.work;
      assert CanDo(w, ops[0]);
      ReachStep(s, Do(ops[0]));
      ReachOps(SetWork(s, Done(w, ops[0])), ops[1..], w');
      assert SetWork(SetWork(s, Done(w, ops[0])), w') == SetWork(s, w');
    }
  }

  /** From any state with loose pages, an abort lets the next writer of the handle hand out any stale number. */
  lemma LooseAbortHandsOut(s: State, links: seq<PgNo>, p: PgNo)
    requires Reachable(s) && InPhase(s, Running) && |links| == |s.writer.value.work.loose| && p in links
    ensures exists s' :: Reachable(s') && HandsOut(s', p)
  {
    var e := s.writer.value.env;
    ReachStep(s, Abort(links));
    var s1 := Ended(s, links);
    ReachStep(s1, BeginWrite(e));
    assert WriteBegun(s1, e).writer.value.work.loose == links;
    assert HandsOut(WriteBegun(s1, e), p);
  }

  /**
    A run that aborts with a loose page: the next writer is about to hand out meta page 0.

    The number is not an accident.  `mp_next` shares its storage with `mp_pgno`.  mdb_dlist_free
    frees the dirty buffers from the lowest page number up, and mdb_page_free stores the head of
    `me_dpages` in each; in a handle that has not freed a buffer before, that head is NULL when
    the lowest dirty page is freed, so a loose page that is the lowest dirty page, as page 2 is
    here, is read back as number 0.  Any other loose page is read back as an address, which is why
    `Abort` allows arbitrary numbers.  The engine loosens the source page of a merge; it is the
    lowest dirty page when it was copied to a reclaimed number below those of its parent and its
    sibling, for instance from records 50 and 51, then 10.
   */
  lemma LooseAbortRun()
    ensures exists s :: Reachable(s) && HandsOut(s, 0)
  {
    assert IsRun([INIT], []);
    assert Reachable(INIT);
    var s1 := WriteBegun(INIT, 0);
    ReachStep(INIT, BeginWrite(0));
    var pages := map[2 := Page({}, [])];
    assert |pages| == 1 && pages.Keys == Run(2, 1) && Blank(pages);
    ReachStep(s1, Do(AllocNew(pages)));
    LooseAbortTail(SetWork(s1, Done(s1.writer.value.work, AllocNew(pages))), 2);
  }

  /** A dirty page loosened as the last of the loose pages. */
  lemma LooseAbortTail(s: State, p: PgNo)
    requires Reachable(s) && InPhase(s, Running) && s.writer.value.work.loose == []
    requires var w := s.writer.value.work; p in w.view && p in w.detached && p in w.dirty
    ensures exists s' :: Reachable(s') && HandsOut(s', 0)
  {
    ReachStep(s, Do(Loosen(p)));
    LooseAbortHandsOut(SetWork(s, Done(s.writer.value.work, Loosen(p))), [0], 0);
  }
}
