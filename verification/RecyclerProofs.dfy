/** Every step of the page recycler keeps the invariant. */
module RecyclerProofs {
  import opened Options
  import opened Recycler
  import opened RecyclerTrees

  // ---------------------------------------------------------------- freeDB records as one multiset

  lemma {:induction false} FlatRemove(m: FreeDb, k: TxnId)
    requires k in m
    ensures Flat(m) == m[k] + Flat(m - {k})
    decreases |m|
  {
    var k0 :| k0 in m && Flat(m) == m[k0] + Flat(m - {k0});
    if k0 != k {
      assert (m - {k0}).Keys == m.Keys - {k0};
      assert (m - {k}).Keys == m.Keys - {k};
      FlatRemove(m - {k0}, k);
      FlatRemove(m - {k}, k0);
      assert m - {k0} - {k} == m - {k} - {k0};
    }
  }

  lemma FlatMember(m: FreeDb, k: TxnId, p: PgNo)
    requires k in m
    ensures m[k][p] <= Flat(m)[p]
  {
    FlatRemove(m, k);
  }

  lemma UnionRemove(a: FreeDb, b: FreeDb, k: TxnId)
    requires k !in a && k in b
    ensures (a + b) - {k} == a + (b - {k})
  {
    hide *;
  }

  lemma FlatEmpty()
    ensures Flat(map[]) == multiset{}
  {}

  lemma Sum3(x: multiset<PgNo>, a: multiset<PgNo>, b: multiset<PgNo>)
    ensures x + (a + b) == a + (x + b)
  {}

  lemma {:induction false} FlatUnion(a: FreeDb, b: FreeDb)
    requires a.Keys !! b.Keys
    ensures Flat(a + b) == Flat(a) + Flat(b)
    decreases |b|
  {
    hide Flat;
    if b == map[] {
      FlatEmpty();
      assert a + b == a && Flat(a) + multiset{} == Flat(a);
    } else {
      var k :| k in b;
      var rest := b - {k};
      assert rest.Keys == b.Keys - {k};
      assert |rest.Keys| < |b.Keys|;
      FlatUnion(a, rest);
      UnionRemove(a, b, k);
      assert k in a + b && (a + b)[k] == b[k];
      FlatRemove(a + b, k);
      FlatRemove(b, k);
      hide *;
      Sum3(b[k], Flat(a), Flat(rest));
    }
  }

  lemma FlatSingle(k: TxnId, x: multiset<PgNo>)
    ensures Flat(map[k := x]) == x
  {
    FlatRemove(map[k := x], k);
    assert map[k := x] - {k} == map[];
  }

  // ---------------------------------------------------------------- ownership

  /** A page the writer may take has no other owner, so no snapshot can still need it. */
  lemma TakenIsNotKept(w: Work, t: TxnId, p: PgNo)
    requires Conserved(w)
    requires p in w.pghead || p in w.loose || w.next <= p || p < 2
    ensures !Kept(w, t, p)
  {
    assert Owners(w, p) <= 1;
    assert p in w.loose ==> multiset(w.loose)[p] >= 1;
    if k :| k in LiveRecs(w) && p in LiveRecs(w)[k] {
      FlatMember(LiveRecs(w), k, p);
    }
  }

  lemma AllocLooseKeeps(live: set<Meta>, w: Work, body: seq<nat>)
    requires WorkInv(live, w) && w.loose != []
    ensures WorkInv(live, Done(w, AllocLoose(body)))
  {
    var w', p := Done(w, AllocLoose(body)), w.loose[0];
    assert LiveRecs(w') == LiveRecs(w);
    assert w.loose == [p] + w.loose[1..];
    forall q: PgNo ensures Owners(w', q) == Owners(w, q) {
      assert Owners(w, p) <= 1;
    }
    forall m | m in live ensures Keeps(w', m) {
      forall q | q in m.view ensures Kept(w', m.txnid, q) {
        assert Kept(w, m.txnid, q);
      }
    }
  }

  lemma AllocHeadOwners(w: Work, w': Work, keys: set<PgNo>, q: PgNo)
    requires Owners(w, q) <= 1 && multiset(keys) <= w.pghead
    requires w'.view.Keys == w.view.Keys + keys && w'.pghead == w.pghead - multiset(keys)
    requires w'.freePgs == w.freePgs && w'.loose == w.loose && LiveRecs(w') == LiveRecs(w)
    ensures Owners(w', q) == Owners(w, q)
  {
    hide Flat, LiveRecs;
  }

  lemma AllocHeadConserves(w: Work, start: PgNo, pages: map<PgNo, Page>)
    requires Conserved(w) && CanDo(w, AllocHead(start, pages))
    ensures Conserved(Done(w, AllocHead(start, pages)))
  {
    hide Owners, Blank, Flat;
    var w' := Done(w, AllocHead(start, pages));
    assert LiveRecs(w') == LiveRecs(w);
    forall q: PgNo ensures Owners(w', q) == Owners(w, q) {
      assert Owners(w, q) <= 1;
      AllocHeadOwners(w, w', pages.Keys, q);
    }
  }

  lemma AllocNewOwners(w: Work, w': Work, num: nat, q: PgNo)
    requires Owners(w, q) == if 2 <= q < w.next then 1 else 0
    requires 2 <= w.next && w'.next == w.next + num
    requires w'.view.Keys == w.view.Keys + Run(w.next, num) && w'.pghead == w.pghead
    requires w'.freePgs == w.freePgs && w'.loose == w.loose && LiveRecs(w') == LiveRecs(w)
    ensures Owners(w', q) == if 2 <= q < w'.next then 1 else 0
  {
    hide Flat, LiveRecs;
  }

  lemma AllocNewConserves(w: Work, pages: map<PgNo, Page>)
    requires Conserved(w) && CanDo(w, AllocNew(pages))
    ensures Conserved(Done(w, AllocNew(pages)))
  {
    hide Owners, Blank, Flat, Run;
    var w' := Done(w, AllocNew(pages));
    assert LiveRecs(w') == LiveRecs(w);
    assert w'.view.Keys == w.view.Keys + pages.Keys;
    hide LiveRecs, CanDo, Done;
    forall q: PgNo ensures Owners(w', q) == if 2 <= q < w'.next then 1 else 0 {
      AllocNewOwners(w, w', |pages|, q);
    }
  }

  lemma SameLiveRecs(w: Work, w': Work)
    requires w'.freedb == w.freedb && w'.pglast == w.pglast
    ensures LiveRecs(w') == LiveRecs(w)
  {}

  lemma AllocRunKeepsPage(w: Work, st: WorkStep, t: TxnId, q: PgNo)
    requires Conserved(w) && CanDo(w, st) && (st.AllocHead? || st.AllocNew?) && Kept(w, t, q)
    ensures Kept(Done(w, st), t, q)
  {
    hide Conserved, Blank, Run;
    SameLiveRecs(w, Done(w, st));
    hide LiveRecs;
    if q in st.pages {
      assert q in multiset(st.pages.Keys);
      TakenIsNotKept(w, t, q);
    }
  }

  lemma AllocRunKeeps(live: set<Meta>, w: Work, st: WorkStep)
    requires WorkInv(live, w) && CanDo(w, st) && (st.AllocHead? || st.AllocNew?)
    ensures forall m :: m in live ==> Keeps(Done(w, st), m)
  {
    hide Conserved, CanDo, Done, Kept;
    forall m, q | m in live && q in m.view ensures Kept(Done(w, st), m.txnid, q) {
      AllocRunKeepsPage(w, st, m.txnid, q);
    }
  }

  lemma FreeKeeps(live: set<Meta>, w: Work, st: WorkStep)
    requires WorkInv(live, w) && CanDo(w, st) && (st.Free? || st.Loosen? || st.FreeRun?)
    ensures WorkInv(live, Done(w, st))
  {
    var w' := Done(w, st);
    assert LiveRecs(w') == LiveRecs(w);
    forall q: PgNo ensures Owners(w', q) == Owners(w, q) {
      if st.FreeRun? { assert multiset(Run(st.start, st.num))[q] == if q in Run(st.start, st.num) then 1 else 0; }
    }
    forall m | m in live ensures Keeps(w', m) {
      forall q | q in m.view ensures Kept(w', m.txnid, q) {
        assert Kept(w, m.txnid, q);
      }
    }
  }

  /** Steps that change neither an owner nor a snapshot page. */
  lemma QuietKeeps(live: set<Meta>, w: Work, w': Work)
    requires WorkInv(live, w)
    requires w'.view.Keys == w.view.Keys && w'.dirty + w'.spilled <= w.dirty + w.spilled
    requires w' ==
      w.(roots := w'.roots, view := w'.view, detached := w'.detached, dirty := w'.dirty, spilled := w'.spilled)
    ensures WorkInv(live, w')
  {
    assert LiveRecs(w') == LiveRecs(w);
    forall q: PgNo ensures Owners(w', q) == Owners(w, q) {}
    forall m | m in live ensures Keeps(w', m) {
      forall q | q in m.view ensures Kept(w', m.txnid, q) {
        assert Kept(w, m.txnid, q);
        assert q !in w.dirty + w.spilled;
      }
    }
  }

  /** Consuming the oldest unconsumed record is safe when every live snapshot is at least as new. */
  lemma ReclaimKeeps(live: set<Meta>, w: Work, k: TxnId)
    requires WorkInv(live, w)
    requires k in w.freedb && w.pglast < k
    requires forall j :: j in w.freedb && w.pglast < j ==> k <= j
    requires forall m :: m in live ==> k <= m.txnid
    ensures WorkInv(live, Reclaimed(w, k))
  {
    var w' := Reclaimed(w, k);
    FlatRemove(LiveRecs(w), k);
    assert LiveRecs(w') == LiveRecs(w) - {k};
    hide Flat;
    forall q: PgNo ensures Owners(w', q) == Owners(w, q) {}
    hide Conserved, Owners;
    forall m, q | m in live && q in m.view ensures Kept(w', m.txnid, q) {
      assert Keeps(w, m) && Kept(w, m.txnid, q);
      ReclaimKeepsPage(w, k, m.txnid, q);
    }
  }

  lemma ReclaimKeepsPage(w: Work, k: TxnId, t: TxnId, q: PgNo)
    requires k in w.freedb && w.pglast < k <= t && Kept(w, t, q)
    requires LiveRecs(Reclaimed(w, k)) == LiveRecs(w) - {k}
    ensures Kept(Reclaimed(w, k), t, q)
  {
    if q !in w.view && q !in w.freePgs {
      var j :| j in LiveRecs(w) && t < j && q in LiveRecs(w)[j];
      assert j in LiveRecs(Reclaimed(w, k)) && LiveRecs(Reclaimed(w, k))[j] == LiveRecs(w)[j];
    }
  }

  lemma FlatUnion3(a: FreeDb, b: FreeDb, k: TxnId, x: multiset<PgNo>)
    requires a.Keys !! b.Keys && k !in a && k !in b
    ensures Flat(a + b + map[k := x]) == Flat(a) + Flat(b) + x
  {
    FlatUnion(a, b);
    FlatSingle(k, x);
    FlatUnion(a + b, map[k := x]);
  }

  lemma SavedRecords(w: Work, txnid: TxnId, recs: FreeDb)
    requires w.pglast < txnid && KeysUpTo(w.freedb, txnid - 1)
    requires forall k :: k in recs ==> 1 <= k <= w.pglast
    ensures LiveRecs(SaveWork(w, txnid, recs)) == SaveWork(w, txnid, recs).freedb
    ensures KeysUpTo(SaveWork(w, txnid, recs).freedb, txnid)
  {
    var w' := SaveWork(w, txnid, recs);
    assert LiveRecs(w').Keys == w'.freedb.Keys;
  }

  lemma SaveConserves(w: Work, txnid: TxnId, recs: FreeDb)
    requires Conserved(w) && CanSave(w, recs)
    requires w.pglast < txnid && KeysUpTo(w.freedb, txnid - 1)
    requires !w.hasHead ==> w.pghead == multiset{}
    ensures Conserved(SaveWork(w, txnid, recs))
  {
    SavedFlat(w, txnid, recs);
    hide LiveRecs, Flat, CanSave;
    forall q: PgNo ensures Owners(SaveWork(w, txnid, recs), q) == Owners(w, q) {
      SavedOwners(w, SaveWork(w, txnid, recs), q);
    }
  }

  lemma SavedFlat(w: Work, txnid: TxnId, recs: FreeDb)
    requires CanSave(w, recs) && w.pglast < txnid && KeysUpTo(w.freedb, txnid - 1) &&
      (!w.hasHead ==> w.pghead == multiset{})
    ensures Flat(LiveRecs(SaveWork(w, txnid, recs))) == Flat(LiveRecs(w)) + w.pghead + multiset(w.loose) + w.freePgs
  {
    SavedRecords(w, txnid, recs);
    FlatUnion3(LiveRecs(w), recs, txnid, w.freePgs + if w.hasHead then multiset{} else multiset(w.loose));
    hide Flat, LiveRecs;
  }

  lemma SavedOwners(w: Work, w': Work, q: PgNo)
    requires w'.view == w.view && w'.freePgs == multiset{} && w'.loose == [] && w'.pghead == multiset{}
    requires Flat(LiveRecs(w')) == Flat(LiveRecs(w)) + w.pghead + multiset(w.loose) + w.freePgs
    ensures Owners(w', q) == Owners(w, q)
  {
    hide Flat, LiveRecs;
  }

  lemma SaveKeeps(live: set<Meta>, w: Work, txnid: TxnId, recs: FreeDb)
    requires WorkInv(live, w) && CanSave(w, recs)
    requires w.pglast < txnid && KeysUpTo(w.freedb, txnid - 1)
    requires forall m :: m in live ==> m.txnid < txnid
    requires !w.hasHead ==> w.pghead == multiset{}
    ensures WorkInv(live, SaveWork(w, txnid, recs))
  {
    var w' := SaveWork(w, txnid, recs);
    SaveConserves(w, txnid, recs);
    SavedRecords(w, txnid, recs);
    forall m | m in live ensures Keeps(w', m) {
      forall q | q in m.view ensures Kept(w', m.txnid, q) {
        assert Kept(w, m.txnid, q);
        SaveKeepsPage(w, txnid, recs, m.txnid, q);
      }
    }
  }

  lemma SaveKeepsPage(w: Work, txnid: TxnId, recs: FreeDb, t: TxnId, q: PgNo)
    requires Kept(w, t, q) && t < txnid && w.pglast < txnid && KeysUpTo(w.freedb, txnid - 1)
    requires forall k :: k in recs ==> 1 <= k <= w.pglast
    requires LiveRecs(SaveWork(w, txnid, recs)) == SaveWork(w, txnid, recs).freedb
    ensures Kept(SaveWork(w, txnid, recs), t, q)
  {
    var w' := SaveWork(w, txnid, recs);
    if q in w.view {
    } else if q in w.freePgs {
      assert txnid in w'.freedb && q in w'.freedb[txnid];
    } else {
      var k :| k in LiveRecs(w) && t < k && q in LiveRecs(w)[k];
      assert k in w'.freedb && w'.freedb[k] == LiveRecs(w)[k];
    }
  }

  // ---------------------------------------------------------------- steps of the whole machine

  /** The writer's dirty pages belong to no live snapshot. */
  lemma DirtyIsNotLive(s: State, p: PgNo, m: Meta)
    requires Inv(s) && s.writer.Some? && s.writer.value.phase != Written
    requires p in s.writer.value.work.dirty && m in Live(s)
    ensures p !in m.view
  {
    assert Keeps(s.writer.value.work, m);
    assert p in m.view ==> Kept(s.writer.value.work, m.txnid, p);
  }

  /** Writing a dirty page disturbs no live snapshot. */
  lemma WriteKeepsMetas(s: State, p: PgNo, c: Page, s': State)
    requires Inv(s) && s.writer.Some? && s.writer.value.phase != Written
    requires p in s.writer.value.work.dirty
    requires s' == s.(disk := s.disk[p := c], unsynced := s.unsynced + {p}, writer := s'.writer)
    requires s'.writer.Some? && s'.writer.value.phase != Written
    ensures MetaInv(s') && Live(s') == Live(s)
  {
    hide MetaOk, WorkInv, WriterInv, ReaderInv, Intact;
    forall m | m in Live(s') ensures MetaOk(m) && Intact(s'.disk, m) && s'.unsynced !! m.view.Keys {
      DirtyIsNotLive(s, p, m);
      IntactElsewhere(s.disk, m, p, c);
    }
    assert Picked(s') == Picked(s);
  }

  lemma IntactElsewhere(disk: map<PgNo, Page>, m: Meta, p: PgNo, c: Page)
    requires Intact(disk, m) && p !in m.view
    ensures Intact(disk[p := c], m)
  {}

  /** A running writer may replace its working data by any that satisfies the invariant. */
  lemma LiftWork(s: State, w': Work)
    requires Inv(s) && InPhase(s, Running)
    requires WorkInv(Live(s), w') && Forest(w'.roots, w'.detached, w'.view) && CleanOnDisk(s.disk, w')
    requires forall p :: p in w'.loose ==> p in w'.dirty
    requires w'.pglast <= s.mti && KeysUpTo(w'.freedb, s.mti)
    requires if w'.hasHead then w'.pglast >= 1 else w'.pghead == multiset{}
    requires NewIsDirty(w', MetaAt(s, s.mti))
    ensures Inv(SetWork(s, w'))
  {
    hide Forest, Conserved, Keeps;
    var s' := SetWork(s, w');
    assert Live(s') == Live(s) && Picked(s') == Picked(s);
  }

  lemma WorkStepKeeps(live: set<Meta>, w: Work, st: WorkStep)
    requires WorkInv(live, w) && CanDo(w, st)
    ensures WorkInv(live, Done(w, st))
  {
    if st.AllocLoose? {
      AllocLooseKeeps(live, w, st.body);
    } else if st.AllocHead? {
      AllocHeadConserves(w, st.start, st.pages);
      AllocRunKeeps(live, w, st);
    } else if st.AllocNew? {
      AllocNewConserves(w, st.pages);
      AllocRunKeeps(live, w, st);
    } else if st.Free? || st.Loosen? || st.FreeRun? {
      FreeKeeps(live, w, st);
    } else {
      QuietKeeps(live, w, Done(w, st));
    }
  }

  /** Page numbers an allocation takes are not pages of a tree. */
  lemma TakenIsNew(w: Work, p: PgNo)
    requires Conserved(w) && (p in w.pghead || p in w.loose || w.next <= p)
    ensures p !in w.view
  {
    assert Owners(w, p) <= 1;
    assert p in w.loose ==> multiset(w.loose)[p] >= 1;
  }

  lemma AllocForest(w: Work, pages: map<PgNo, Page>)
    requires Conserved(w) && Forest(w.roots, w.detached, w.view) && Blank(pages)
    requires forall p :: p in pages ==> p in w.pghead || p in w.loose || w.next <= p
    ensures Forest(w.roots, w.detached + pages.Keys, w.view + pages)
  {
    hide Conserved, Forest;
    forall p | p in pages ensures p !in w.view { TakenIsNew(w, p); }
    AddedForest(w.roots, w.detached, w.view, pages);
  }

  lemma RootsApart(roots: set<PgNo>, detached: set<PgNo>, view: map<PgNo, Page>)
    requires Forest(roots, detached, view)
    ensures roots !! detached
  {}

  /** Every step of the writer keeps its pages a forest. */
  lemma WorkStepForest(w: Work, st: WorkStep)
    requires Conserved(w) && CanDo(w, st) && Forest(w.roots, w.detached, w.view)
    ensures var w' := Done(w, st); Forest(w'.roots, w'.detached, w'.view)
  {
    hide Conserved, Forest, Reached;
    match st
    case AllocLoose(body) =>
      var p, pages := w.loose[0], map[w.loose[0] := Page({}, body)];
      AllocForest(w, pages);
      assert w.view + pages == w.view[p := Page({}, body)] && pages.Keys == {p};
    case AllocHead(_, pages) => AllocForest(w, pages);
    case AllocNew(pages) => AllocForest(w, pages);
    case Link(p, c) => LinkedForest(w.roots, w.detached, w.view, p, c);
    case LinkRoot(c) =>
      RootsApart(w.roots, w.detached, w.view);
      RerootedForest(w.roots, w.detached, w.view, w.roots + {c}, w.detached - {c});
    case Unlink(p, c) => UnlinkedForest(w.roots, w.detached, w.view, p, c);
    case UnlinkRoot(c) =>
      RootsApart(w.roots, w.detached, w.view);
      RerootedForest(w.roots, w.detached, w.view, w.roots - {c}, w.detached + {c});
    case Free(p) => FreedForest(w.roots, w.detached, w.view, p);
    case Loosen(p) => FreedForest(w.roots, w.detached, w.view, p);
    case FreeRun(start, num) => RunFreedForest(w.roots, w.detached, w.view, Run(start, num));
    case Modify(p, body) => ModifiedForest(w.roots, w.detached, w.view, p, body);
    case Unspill(_) =>
  }

  lemma WorkStepClean(disk: map<PgNo, Page>, w: Work, st: WorkStep)
    requires CleanOnDisk(disk, w) && CanDo(w, st)
    requires forall p :: p in w.loose ==> p in w.dirty
    ensures CleanOnDisk(disk, Done(w, st))
  {}

  lemma DoInv(s: State, op: WorkStep)
    requires Inv(s) && InPhase(s, Running) && CanDo(s.writer.value.work, op)
    ensures Inv(SetWork(s, Done(s.writer.value.work, op)))
  {
    var w := s.writer.value.work;
    WorkStepKeeps(Live(s), w, op);
    WorkStepForest(w, op);
    WorkStepClean(s.disk, w, op);
    LooseStaysDirty(w, op);
    NewStaysDirty(w, op, MetaAt(s, s.mti));
    LiftWork(s, Done(w, op));
  }

  lemma NewStaysDirty(w: Work, st: WorkStep, m: Meta)
    requires NewIsDirty(w, m) && CanDo(w, st) && forall p :: p in w.loose ==> p in w.dirty
    ensures NewIsDirty(Done(w, st), m)
  {}

  lemma LooseStaysDirty(w: Work, st: WorkStep)
    requires Conserved(w) && CanDo(w, st)
    requires forall p :: p in w.loose ==> p in w.dirty
    ensures forall p :: p in Done(w, st).loose ==> p in Done(w, st).dirty
  {
    forall p | p in Done(w, st).loose ensures p in Done(w, st).dirty {
      assert Owners(w, p) <= 1;
      assert p in w.loose ==> multiset(w.loose)[p] >= 1;
    }
  }

  lemma ReclaimInv(s: State, k: TxnId)
    requires Inv(s) && InPhase(s, Running) && CanReclaim(s.writer.value.work, OldestOf(s, s.writer.value.env), k)
    ensures Inv(SetWork(s, Reclaimed(s.writer.value.work, k)))
  {
    var w := s.writer.value.work;
    forall m | m in Live(s) ensures k <= m.txnid { OldestBounds(s, s.writer.value.env, m); }
    ReclaimKeeps(Live(s), w, k);
    LiftWork(s, Reclaimed(w, k));
  }

  /** The cached oldest reader is at most one above any live snapshot, and not above any reader. */
  lemma OldestBounds(s: State, e: EnvId, m: Meta)
    requires Inv(s) && m in Live(s)
    ensures OldestOf(s, e) <= m.txnid + 1
  {
    if m !in s.readers.Values {
      assert m == MetaAt(s, s.mti) || m == MetaAt(s, s.mti + 1);
    }
  }

  lemma SpillInv(s: State, p: PgNo)
    requires Enabled(s, Spill(p)) && Inv(s)
    ensures Inv(Apply(s, Spill(p)))
  {
    hide Forest, MetaOk, Keeps;
    var w := s.writer.value.work;
    var w' := w.(dirty := w.dirty - {p}, spilled := w.spilled + {p});
    QuietKeeps(Live(s), w, w');
    assert p !in w.loose by {
      assert Owners(w, p) <= 1;
      assert p in w.loose ==> multiset(w.loose)[p] >= 1;
    }
    WriteInv(s, p, w.view[p], w');
  }

  lemma FlushInv(s: State, p: PgNo, c: Page)
    requires Inv(s) && InPhase(s, Saved) && CanFlush(s.writer.value.work, p, c)
    ensures Inv(Apply(s, Flush(p, c)))
  {
    var w := s.writer.value.work;
    var w' := w.(dirty := w.dirty - {p});
    QuietKeeps(Live(s), w, w');
    WriteInv(s, p, c, w');
  }

  /** Writing a dirty page of the running or saving writer. */
  lemma WriteInv(s: State, p: PgNo, c: Page, w': Work)
    requires Inv(s) && (InPhase(s, Running) || InPhase(s, Saved)) && CanFlush(s.writer.value.work, p, c)
    requires w' == s.writer.value.work.(dirty := s.writer.value.work.dirty - {p}, spilled := w'.spilled)
    requires p !in w'.loose && WorkInv(Live(s), w') && (InPhase(s, Running) ==> NewIsDirty(w', MetaAt(s, s.mti)))
    ensures Inv(WritePage(SetWork(s, w'), p, c))
  {
    hide Forest, Conserved, Keeps, MetaOk;
    WriteKeepsMetas(s, p, c, WritePage(SetWork(s, w'), p, c));
  }

  lemma LiveIsOlder(s: State, m: Meta)
    requires Inv(s) && m in Live(s) && !InPhase(s, Written)
    ensures m.txnid <= s.mti
  {
    hide MetaOk, WorkInv, WriterInv, Intact;
    assert m in s.readers.Values || m == MetaAt(s, s.mti) || m == MetaAt(s, s.mti + 1);
  }

  lemma CleanSaved(disk: map<PgNo, Page>, w: Work, txnid: TxnId, recs: FreeDb)
    requires CleanOnDisk(disk, w)
    ensures CleanOnDisk(disk, SaveWork(w, txnid, recs))
  {}

  lemma SaveInv(s: State, recs: FreeDb)
    requires Inv(s) && InPhase(s, Running) && CanSave(s.writer.value.work, recs)
    ensures Inv(SetPhase(SetWork(s, SaveWork(s.writer.value.work, s.writer.value.txnid, recs)), Saved))
  {
    hide Forest, Conserved, MetaOk, Keeps, Intact, CleanOnDisk;
    var w, txnid := s.writer.value.work, s.writer.value.txnid;
    forall m | m in Live(s) ensures m.txnid < txnid { LiveIsOlder(s, m); }
    CleanSaved(s.disk, w, txnid, recs);
    SaveKeeps(Live(s), w, txnid, recs);
    SavedRecords(w, txnid, recs);
    LiftSave(s, SaveWork(w, txnid, recs));
  }

  lemma LiftSave(s: State, w': Work)
    requires Inv(s) && InPhase(s, Running)
    requires WorkInv(Live(s), w') && CleanOnDisk(s.disk, w')
    requires w'.loose == [] && w'.pghead == w'.freePgs == multiset{} && w'.pglast == 0
    requires w'.detached == {} && Forest(w'.roots, {}, w'.view) && KeysUpTo(w'.freedb, s.mti + 1)
    ensures Inv(SetPhase(SetWork(s, w'), Saved))
  {
    hide Forest, Conserved, Keeps;
    var s' := SetPhase(SetWork(s, w'), Saved);
    assert Live(s') == Live(s) && Picked(s') == Picked(s);
  }

  lemma SyncInv(s: State)
    requires Inv(s) && InPhase(s, Saved) && s.writer.value.work.dirty !! s.writer.value.work.view.Keys
    ensures Inv(SetPhase(s.(unsynced := {}), Synced))
  {
    hide Forest, Conserved, Keeps;
    var s' := SetPhase(s.(unsynced := {}), Synced);
    assert Live(s') == Live(s) && Picked(s') == Picked(s);
  }

  lemma WriteMetaInv(s: State)
    requires Inv(s) && InPhase(s, Synced)
    ensures Inv(MetaWritten(s))
  {
    hide Forest, Conserved, Keeps;
    FreshAfterCommit(s);
    WriteMetaShape(s);
    LiftMeta(s, MetaWritten(s), NewMeta(s.writer.value));
  }

  lemma LiftMeta(s: State, s': State, m: Meta)
    requires Inv(s) && InPhase(s, Synced)
    requires s' == s.(meta0 := s'.meta0, meta1 := s'.meta1, writer := Some(s.writer.value.(phase := Written)))
    requires Picked(s') == m == MetaAt(s', s.mti + 1) && MetaAt(s', s.mti) == MetaAt(s, s.mti) && m.txnid == s.mti + 1
    requires Live(s') <= Live(s) + {m}
    requires MetaOk(m) && Intact(s.disk, m) && Keeps(Fresh(m), m)
    requires forall x :: x in Live(s) ==> Keeps(Fresh(m), x)
    ensures Inv(s')
  {
    hide Forest, Conserved, Keeps;
    forall x | x in Live(s') ensures MetaOk(x) && Intact(s'.disk, x) && Keeps(Fresh(m), x) {
      assert x == m || x in Live(s);
    }
  }

  /** The meta page a commit writes is the other one, and it becomes the picked one. */
  lemma WriteMetaShape(s: State)
    requires MetaInv(s) && InPhase(s, Synced) && s.writer.value.txnid == s.mti + 1
    ensures var s', m := MetaWritten(s), NewMeta(s.writer.value);
      && Picked(s') == m == MetaAt(s', s.mti + 1)
      && MetaAt(s', s.mti) == MetaAt(s, s.mti)
      && Live(s') <= Live(s) + {m}
  {}

  /** The freeDB a commit leaves behind is a good starting point for the next writer. */
  lemma FreshAfterCommit(s: State)
    requires Inv(s) && InPhase(s, Synced)
    ensures var m := NewMeta(s.writer.value);
      && MetaOk(m) && Intact(s.disk, m) && Keeps(Fresh(m), m)
      && forall x :: x in Live(s) ==> Keeps(Fresh(m), x)
  {
    var w, m := s.writer.value.work, NewMeta(s.writer.value);
    var f := Fresh(m);
    assert LiveRecs(f) == m.freedb == LiveRecs(w);
    forall p: PgNo ensures Owners(f, p) == Owners(w, p) {}
    forall x | x in Live(s) ensures Keeps(f, x) {
      forall p | p in x.view ensures Kept(f, x.txnid, p) {
        assert Kept(w, x.txnid, p);
      }
    }
  }

  /** The set of snapshots may shrink, and readers may come and go. */
  lemma ReadersInv(s: State, s': State)
    requires Inv(s) && s' == s.(readers := s'.readers)
    requires s'.readers.Values <= s.readers.Values + {MetaAt(s, s.mti)}
    requires ReaderInv(s')
    ensures Inv(s')
  {
    hide Forest, Conserved, Keeps;
    assert Live(s') <= Live(s) && Picked(s') == Picked(s);
  }

  lemma BeginReadInv(s: State, r: Slot)
    requires Inv(s) && r !in s.readers
    ensures Inv(ReadBegun(s, r))
  {
    hide Forest, Conserved, Keeps, MetaOk;
    assert forall x :: x in ReadBegun(s, r).readers.Values ==> x in s.readers.Values || x == MetaAt(s, s.mti);
    ReadersInv(s, ReadBegun(s, r));
  }

  lemma EndReadInv(s: State, r: Slot)
    requires Inv(s) && r in s.readers
    ensures Inv(s.(readers := s.readers - {r}))
  {
    ReadersInv(s, s.(readers := s.readers - {r}));
  }

  lemma BeginWriteInv(s: State, e: EnvId)
    requires Inv(s) && s.writer.None?
    ensures Inv(WriteBegun(s, e))
  {
    hide Forest, Conserved, Keeps;
    var s' := WriteBegun(s, e);
    assert Live(s') == Live(s) && Picked(s') == Picked(s);
    assert MetaAt(s, s.mti) in Live(s) && Picked(s) == MetaAt(s, s.mti);
    assert s'.writer.value.work == Fresh(Picked(s));
  }

  lemma RefreshInv(s: State, o: TxnId)
    requires Inv(s) && InPhase(s, Running) && IsOldest(s.readers, s.writer.value.txnid, o)
    ensures Inv(s.(pgoldest := s.pgoldest[s.writer.value.env := o]))
  {
    hide Forest, Conserved, Keeps;
    var s' := s.(pgoldest := s.pgoldest[s.writer.value.env := o]);
    assert Live(s') == Live(s) && Picked(s') == Picked(s);
  }

  /** Without a writer, and with nothing loose left behind, the invariant is about the meta pages only. */
  lemma IdleInv(s: State, s': State)
    requires Inv(s)
    requires s' == s.(writer := None, mti := Picked(s).txnid, pgoldest := s'.pgoldest, leftover := s'.leftover)
    requires s'.pgoldest.Keys <= s.pgoldest.Keys && forall e :: e in s'.pgoldest ==> s'.pgoldest[e] == s.pgoldest[e]
    requires forall e :: e in s'.leftover ==> s'.leftover[e] == []
    ensures Inv(s')
  {
    hide Forest, Conserved, Keeps;
    assert Live(s') == Live(s) && Picked(s') == Picked(s);
  }

  lemma PickedIsLatest(s: State)
    requires MetaInv(s)
    ensures Picked(s).txnid == if InPhase(s, Written) then s.mti + 1 else s.mti
  {}

  lemma HasMember(xs: seq<PgNo>)
    requires xs != []
    ensures exists p :: p in xs
  {
    assert xs[0] in xs;
  }

  lemma NothingDirtyNothingLoose(w: Work)
    requires w.dirty == {} && forall p :: p in w.loose ==> p in w.dirty
    ensures w.loose == []
  {
    if w.loose != [] {
      HasMember(w.loose);
      assert false;
    }
  }

  lemma CrashInv(s: State, g: map<PgNo, Page>)
    requires Inv(s) && g.Keys <= s.unsynced
    ensures Inv(Crashed(s, g))
  {
    hide Forest, Conserved, Keeps;
    var s' := Crashed(s, g);
    assert Live(s') <= Live(s) && Picked(s') == Picked(s);
    forall m | m in Live(s') ensures Intact(s'.disk, m) {
      assert m in Live(s) && s.unsynced !! m.view.Keys;
    }
  }

  /** Aborting a transaction that holds loose pages leaves them on the idle transaction's list. */
  predicate AbortsLoose(s: State, st: Step) {
    st.Abort? && s.writer.Some? && s.writer.value.work.loose != []
  }

  /** Every step keeps the invariant, except aborting a transaction that holds loose pages. */
  lemma StepInv(s: State, st: Step)
    requires Inv(s) && Enabled(s, st) && !AbortsLoose(s, st)
    ensures Inv(Apply(s, st))
  {
    hide Inv;
    match st
    case BeginRead(r) => BeginReadInv(s, r);
    case EndRead(r) => EndReadInv(s, r);
    case BeginWrite(e) => BeginWriteInv(s, e);
    case RefreshOldest(o) => RefreshInv(s, o);
    case Reclaim(k) => ReclaimInv(s, k);
    case Do(op) => DoInv(s, op);
    case Spill(p) => SpillInv(s, p);
    case Save(recs) => SaveInv(s, recs);
    case Flush(p, c) => FlushInv(s, p, c);
    case Sync => SyncInv(s);
    case WriteMeta => WriteMetaInv(s);
    case Crash(g) => CrashInv(s, g);
    case _ => EndInv(s, st);
  }

  /** Steps that end the write transaction. */
  lemma EndInv(s: State, st: Step)
    requires Inv(s) && Enabled(s, st) && !AbortsLoose(s, st)
    requires st.Publish? || st.CommitEmpty? || st.WriterDies? || st.Abort?
    ensures Inv(Apply(s, st))
  {
    hide Forest, Conserved, Keeps, MetaOk;
    PickedIsLatest(s);
    if st.CommitEmpty? { NothingDirtyNothingLoose(s.writer.value.work); }
    IdleInv(s, Apply(s, st));
  }
}
