/**
  What transactions see and leave behind, told from the steps of a run: a reader and a writer start
  from the last published commit, and a commit publishes what the writer's own edits make of it.
 */
module RecyclerRuns {
  import opened Options
  import opened Recycler
  import opened RecyclerProofs
  import opened RecyclerTheorems

  // ---------------------------------------------------------------- the published snapshot

  /** The last commit that was published: by its writer, or by whoever finds its meta page after a failure. */
  ghost function Published(states: seq<State>, steps: seq<Step>, i: nat): Meta
    requires IsRun(states, steps) && i < |states|
  {
    if i == 0 then EMPTY_META
    else if steps[i - 1].Publish? || steps[i - 1].WriterDies? || steps[i - 1].Crash?
    then LastCommitted(states, steps, i - 1)
    else Published(states, steps, i - 1)
  }

  /** The meta page that the published transaction number selects is that commit. */
  lemma {:induction false} PublishedIsSelected(states: seq<State>, steps: seq<Step>, i: nat)
    requires IsRun(states, steps) && NoLooseAbort(states, steps) && i < |states|
    ensures MetaAt(states[i], states[i].mti) == Published(states, steps, i)
    ensures Published(states, steps, i).txnid == states[i].mti
  {
    RunInv(states, steps, i);
    if i > 0 {
      PublishedIsSelected(states, steps, i - 1);
      RunInv(states, steps, i - 1);
      PickedIsLastCommitted(states, steps, i - 1);
      SelectedStep(states[i - 1], steps[i - 1]);
    }
  }

  lemma SelectedStep(s: State, st: Step)
    requires Inv(s) && Enabled(s, st)
    ensures var s' := Apply(s, st);
      MetaAt(s', s'.mti) == if st.Publish? || st.WriterDies? || st.Crash? then Picked(s) else MetaAt(s, s.mti)
  {
    hide Inv, CanDo, Done, CanSave, CanReclaim, IsOldest, SaveWork, CanFlush, Untouched, NewMeta;
    match st
    case WriteMeta => WriteMetaSelects(s);
    case Publish => PublishSelects(s);
    case WriterDies => PickedSelects(s);
    case Crash(_) => PickedSelects(s);
    case _ =>
  }

  lemma WriteMetaSelects(s: State)
    requires Inv(s) && InPhase(s, Synced)
    ensures MetaAt(MetaWritten(s), s.mti) == MetaAt(s, s.mti)
  {
    hide WorkInv, MetaOk, Intact, ReaderInv;
    WriteMetaShape(s);
  }

  lemma PublishSelects(s: State)
    requires Inv(s) && InPhase(s, Written)
    ensures MetaAt(s, s.writer.value.txnid) == Picked(s)
  {
    hide WorkInv, MetaOk, Intact, ReaderInv;
  }

  lemma PickedSelects(s: State)
    requires Inv(s)
    ensures MetaAt(s, Picked(s).txnid) == Picked(s)
  {
    hide WorkInv, MetaOk, Intact, ReaderInv;
    PickedIsLatest(s);
  }

  /** A new reader gets the last published commit; the other readers keep theirs. */
  lemma ReaderGetsPublished(states: seq<State>, steps: seq<Step>, i: nat, r: Slot)
    requires IsRun(states, steps) && NoLooseAbort(states, steps) && i < |steps| && steps[i] == BeginRead(r)
    ensures var readers, before := states[i + 1].readers, states[i].readers;
      && readers.Keys == before.Keys + {r}
      && readers[r] == Published(states, steps, i) && readers[r].txnid == states[i].mti
      && forall q :: q in before ==> q != r && readers[q] == before[q]
  {
    PublishedIsSelected(states, steps, i);
    assert Enabled(states[i], steps[i]) && states[i + 1] == Apply(states[i], steps[i]);
  }

  /** A reader that ends leaves its slot, and only that one. */
  lemma ReaderLeaves(states: seq<State>, steps: seq<Step>, i: nat, r: Slot)
    requires IsRun(states, steps) && i < |steps| && steps[i] == EndRead(r)
    ensures var readers, before := states[i + 1].readers, states[i].readers;
      && r in before && readers.Keys == before.Keys - {r}
      && forall q :: q in readers ==> readers[q] == before[q]
  {
    assert Enabled(states[i], steps[i]) && states[i + 1] == Apply(states[i], steps[i]);
  }

  /** A new writer starts from the last published commit, with the next number and empty lists. */
  lemma WriterStartsFromPublished(states: seq<State>, steps: seq<Step>, i: nat, e: EnvId)
    requires IsRun(states, steps) && NoLooseAbort(states, steps) && i < |steps| && steps[i] == BeginWrite(e)
    ensures states[i + 1].writer.Some?
    ensures var wr, m := states[i + 1].writer.value, Published(states, steps, i);
      && wr.env == e && wr.phase == Running && wr.txnid == m.txnid + 1
      && wr.work.roots == m.roots && wr.work.view == m.view && wr.work.freedb == m.freedb && wr.work.next == m.next
      && wr.work.dirty == wr.work.spilled == wr.work.detached == {} && wr.work.loose == []
      && wr.work.freePgs == wr.work.pghead == multiset{} && !wr.work.hasHead && wr.work.pglast == 0
  {
    PublishedIsSelected(states, steps, i);
    RunInv(states, steps, i);
    assert Enabled(states[i], steps[i]) && states[i + 1] == Apply(states[i], steps[i]);
  }

  // ---------------------------------------------------------------- a transaction's edits

  /** Roots and pages. */
  datatype Trees = Trees(roots: set<PgNo>, view: map<PgNo, Page>)

  /** The pages an operation adds, given the first loose page. */
  function Added(op: WorkStep, loose: PgNo): map<PgNo, Page> {
    match op
    case AllocLoose(body) => map[loose := Page({}, body)]
    case AllocHead(_, pages) => pages
    case AllocNew(pages) => pages
    case _ => map[]
  }

  /** The page numbers an operation gives up. */
  function GivenUp(op: WorkStep): set<PgNo> {
    match op
    case Free(p) => {p}
    case Loosen(p) => {p}
    case FreeRun(start, num) => Run(start, num)
    case _ => {}
  }

  /** What an operation makes of page `q`. */
  function EditedPage(q: PgNo, c: Page, op: WorkStep): Page {
    match op
    case Link(p, child) => if p == q then Page(c.refs + {child}, c.body) else c
    case Unlink(p, child) => if p == q then Page(c.refs - {child}, c.body) else c
    case Modify(p, body) => if p == q then Page(c.refs, body) else c
    case _ => c
  }

  /** What an operation makes of the trees: every page it does not name stays as it is. */
  function Edited(t: Trees, op: WorkStep, loose: PgNo): Trees {
    var added := Added(op, loose);
    Trees(
      match op
      case LinkRoot(c) => t.roots + {c}
      case UnlinkRoot(c) => t.roots - {c}
      case _ => t.roots,
      map q | q in t.view.Keys + added.Keys && q !in GivenUp(op) ::
        if q in added then added[q] else EditedPage(q, t.view[q], op))
  }

  function FirstLoose(w: Work): PgNo {
    if w.loose == [] then 0 else w.loose[0]
  }

  function TreesOf(w: Work): Trees {
    Trees(w.roots, w.view)
  }

  /** A step of the writer does to its trees what the edit says. */
  lemma DoneIsEdited(w: Work, op: WorkStep)
    requires CanDo(w, op)
    ensures TreesOf(Done(w, op)) == Edited(TreesOf(w), op, FirstLoose(w))
  {
    hide Reached, Run, Blank;
    match op
    case AllocLoose(_) => AddEdit(TreesOf(w), op, FirstLoose(w));
    case AllocHead(_, _) => AddEdit(TreesOf(w), op, FirstLoose(w));
    case AllocNew(_) => AddEdit(TreesOf(w), op, FirstLoose(w));
    case Free(_) => DropEdit(TreesOf(w), op, FirstLoose(w));
    case Loosen(_) => DropEdit(TreesOf(w), op, FirstLoose(w));
    case FreeRun(_, _) => DropEdit(TreesOf(w), op, FirstLoose(w));
    case Link(p, c) => PageEdit(TreesOf(w), op, FirstLoose(w), p, w.view[p].(refs := w.view[p].refs + {c}));
    case Unlink(p, c) => PageEdit(TreesOf(w), op, FirstLoose(w), p, w.view[p].(refs := w.view[p].refs - {c}));
    case Modify(p, body) => PageEdit(TreesOf(w), op, FirstLoose(w), p, w.view[p].(body := body));
    case _ => NoEdit(TreesOf(w), op, FirstLoose(w));
  }

  lemma AddEdit(t: Trees, op: WorkStep, loose: PgNo)
    requires op.AllocLoose? || op.AllocHead? || op.AllocNew?
    ensures Edited(t, op, loose) == Trees(t.roots, t.view + Added(op, loose))
    ensures op.AllocLoose? ==> t.view + Added(op, loose) == t.view[loose := Page({}, op.body)]
  {
    assert Edited(t, op, loose).view == t.view + Added(op, loose);
  }

  lemma DropEdit(t: Trees, op: WorkStep, loose: PgNo)
    requires op.Free? || op.Loosen? || op.FreeRun?
    ensures Edited(t, op, loose) == Trees(t.roots, t.view - GivenUp(op))
  {
    assert Edited(t, op, loose).view == t.view - GivenUp(op);
  }

  lemma PageEdit(t: Trees, op: WorkStep, loose: PgNo, p: PgNo, c: Page)
    requires op.Link? || op.Unlink? || op.Modify?
    requires p in t.view && c == EditedPage(p, t.view[p], op) && forall q, x :: q != p ==> EditedPage(q, x, op) == x
    ensures Edited(t, op, loose) == Trees(t.roots, t.view[p := c])
  {
    assert Edited(t, op, loose).view == t.view[p := c];
  }

  lemma NoEdit(t: Trees, op: WorkStep, loose: PgNo)
    requires op.LinkRoot? || op.UnlinkRoot? || op.Unspill?
    ensures Edited(t, op, loose).view == t.view
  {}

  /** The step ends the write transaction. */
  predicate EndsWrite(st: Step) {
    st.Publish? || st.CommitEmpty? || st.Abort? || st.WriterDies? || st.Crash?
  }

  /** The write transaction begun by step `b` is still the current one before step `i`. */
  predicate SameTransaction(steps: seq<Step>, b: nat, i: nat) {
    b < i <= |steps| && steps[b].BeginWrite? && forall k :: b < k < i ==> !EndsWrite(steps[k])
  }

  /** The last published trees, with the edits of the transaction begun by step `b`. */
  ghost function Built(states: seq<State>, steps: seq<Step>, b: nat, i: nat): Trees
    requires IsRun(states, steps) && b < i < |states|
    decreases i
  {
    if i == b + 1 then Trees(Published(states, steps, b).roots, Published(states, steps, b).view)
    else
      var t := Built(states, steps, b, i - 1);
      if steps[i - 1].Do? && states[i - 1].writer.Some?
      then Edited(t, steps[i - 1].op, FirstLoose(states[i - 1].writer.value.work))
      else t
  }

  /** At any time the writer's trees are just that, whatever it has reclaimed, spilled, saved or flushed. */
  lemma {:induction false} WriterHasBuilt(states: seq<State>, steps: seq<Step>, b: nat, i: nat)
    requires IsRun(states, steps) && NoLooseAbort(states, steps) && SameTransaction(steps, b, i)
    ensures states[i].writer.Some? && TreesOf(states[i].writer.value.work) == Built(states, steps, b, i)
    ensures states[i].writer.value.txnid == Published(states, steps, b).txnid + 1
    decreases i
  {
    hide Enabled, Apply, Edited;
    if i == b + 1 {
      WriterStartsFromPublished(states, steps, b, steps[b].env);
    } else {
      WriterHasBuilt(states, steps, b, i - 1);
      OnlyEditsChangeTrees(states[i - 1], steps[i - 1]);
    }
  }

  lemma OnlyEditsChangeTrees(s: State, st: Step)
    requires Enabled(s, st) && s.writer.Some? && !EndsWrite(st)
    ensures Apply(s, st).writer.Some? && Apply(s, st).writer.value.txnid == s.writer.value.txnid
    ensures var w, w' := s.writer.value.work, Apply(s, st).writer.value.work;
      TreesOf(w') == if st.Do? then Edited(TreesOf(w), st.op, FirstLoose(w)) else TreesOf(w)
  {
    hide CanDo, Done, Edited, CanSave, CanReclaim;
    if st.Do? { DoneIsEdited(s.writer.value.work, st.op); }
  }

  // ---------------------------------------------------------------- commits

  /**
    A commit publishes the transaction's edits.  After the meta page write of the transaction begun
    by step `b`, and until the next one, a crash leaves as the picked snapshot the trees that were
    published when it began, with its edits, every page of them on disk; its number is the next one.
   */
  lemma CommitPublishesEdits(
      states: seq<State>, steps: seq<Step>, b: nat, i: nat, j: nat, garbled: map<PgNo, Page>)
    requires IsRun(states, steps) && NoLooseAbort(states, steps) && SameTransaction(steps, b, i)
    requires i < j < |states| && steps[i].WriteMeta? && forall k :: i < k < j ==> !steps[k].WriteMeta?
    requires garbled.Keys <= WrittenSince(steps, j)
    ensures Enabled(states[j], Crash(garbled))
    ensures var s', t := Apply(states[j], Crash(garbled)), Built(states, steps, b, i);
      && Picked(s').txnid == Published(states, steps, b).txnid + 1 == s'.mti
      && Picked(s').roots == t.roots && Picked(s').view == t.view
      && forall p :: p in t.view ==> p in s'.disk && s'.disk[p] == t.view[p]
  {
    hide Enabled, Apply, Forest, Conserved, Inv, WrittenSince, Built, Published, NoLooseAbort;
    WriterHasBuilt(states, steps, b, i);
    CommittedNext(states, steps, i);
    LastCommittedStays(states, steps, i + 1, j);
    CrashAtomicity(states, steps, j, garbled);
    CrashSelects(states, steps, j, garbled);
  }

  lemma CrashSelects(states: seq<State>, steps: seq<Step>, i: nat, g: map<PgNo, Page>)
    requires IsRun(states, steps) && i < |states| && Enabled(states[i], Crash(g))
    ensures Apply(states[i], Crash(g)).mti == Picked(states[i]).txnid
    ensures Picked(Apply(states[i], Crash(g))) == Picked(states[i])
  {}

  /** The meta page write itself: the writer's own data in one meta page, the other one untouched. */
  lemma MetaWriteIs(states: seq<State>, steps: seq<Step>, i: nat)
    requires IsRun(states, steps) && NoLooseAbort(states, steps) && i < |steps| && steps[i].WriteMeta?
    ensures states[i].writer.Some?
    ensures var wr, m := states[i].writer.value, Picked(states[i + 1]);
      && m.txnid == wr.txnid && m.roots == wr.work.roots && m.view == wr.work.view
      && m.freedb == wr.work.freedb && m.next == wr.work.next
      && m == MetaAt(states[i + 1], wr.txnid)
      && wr.txnid == states[i].mti + 1 && MetaAt(states[i + 1], states[i].mti) == Published(states, steps, i)
  {
    hide Forest, Conserved, WorkInv, MetaOk;
    RunInv(states, steps, i);
    PublishedIsSelected(states, steps, i);
    PickedIsLastCommitted(states, steps, i + 1);
    assert Enabled(states[i], steps[i]) && states[i + 1] == Apply(states[i], steps[i]);
    WriteMetaShape(states[i]);
  }

  /** A commit that writes nothing had nothing to write. */
  lemma EmptyCommitChangesNothing(states: seq<State>, steps: seq<Step>, b: nat, i: nat)
    requires IsRun(states, steps) && NoLooseAbort(states, steps) && SameTransaction(steps, b, i)
    requires i < |steps| && steps[i].CommitEmpty?
    ensures var m := Published(states, steps, i); Built(states, steps, b, i) == Trees(m.roots, m.view)
  {
    hide Built, Published;
    WriterHasBuilt(states, steps, b, i);
    PublishedIsSelected(states, steps, i);
    RunInv(states, steps, i);
    assert Enabled(states[i], steps[i]);
    UntouchedIsSame(states[i]);
  }

  lemma UntouchedIsSame(s: State)
    requires Inv(s) && InPhase(s, Running) && Untouched(s.writer.value.work, MetaAt(s, s.mti))
    ensures TreesOf(s.writer.value.work) == Trees(MetaAt(s, s.mti).roots, MetaAt(s, s.mti).view)
  {
    hide Forest, Conserved;
    var w, m := s.writer.value.work, MetaAt(s, s.mti);
    assert m in Live(s) && Keeps(w, m) && Intact(s.disk, m) && m.txnid == s.mti;
    forall p | p in m.view ensures p in w.view {
      assert Kept(w, m.txnid, p);
    }
    assert w.view.Keys == m.view.Keys;
    assert w.view == m.view;
  }

  // ---------------------------------------------------------------- a commit can always be completed

  /** `s'` is reachable, and the invariant still holds there. */
  ghost predicate Good(s: State) {
    Reachable(s) && Inv(s)
  }

  lemma GoodStep(s: State, st: Step)
    requires Good(s) && Enabled(s, st) && !AbortsLoose(s, st)
    ensures Good(Apply(s, st))
  {
    hide Enabled, Apply, Inv, Reachable;
    ReachStep(s, st);
    StepInv(s, st);
  }

  /** There is a way to store the reclaimed and loose pages. */
  lemma SomeSave(s: State) returns (recs: FreeDb)
    requires Inv(s) && InPhase(s, Running) && s.writer.value.work.detached == {}
    ensures Enabled(s, Save(recs))
  {
    hide Forest, Conserved, Keeps, MetaOk;
    var w := s.writer.value.work;
    if w.hasHead {
      recs := map[1 := w.pghead + multiset(w.loose)];
      FlatSingle(1, w.pghead + multiset(w.loose));
    } else {
      recs := map[];
      FlatEmpty();
    }
    hide Flat;
  }

  /** The writer of `s'` has saved all it has, and only flushing differs. */
  predicate Flushing(s: State, s': State) {
    && InPhase(s, Saved) && InPhase(s', Saved)
    && s'.writer.value.txnid == s.writer.value.txnid && s'.mti == s.mti
    && TreesOf(s'.writer.value.work) == TreesOf(s.writer.value.work)
  }

  lemma {:induction false} FlushAll(s: State) returns (s': State)
    requires Good(s) && InPhase(s, Saved)
    ensures Good(s') && Flushing(s, s') && s'.writer.value.work.dirty == {}
    decreases if s.writer.Some? then |s.writer.value.work.dirty| else 0
  {
    hide Good;
    var w := s.writer.value.work;
    if w.dirty == {} {
      s' := s;
    } else {
      var p :| p in w.dirty;
      var c := if p in w.view then w.view[p] else Page({}, []);
      GoodStep(s, Flush(p, c));
      assert |w.dirty - {p}| < |w.dirty|;
      s' := FlushAll(Apply(s, Flush(p, c)));
    }
  }

  /**
    A running transaction with nothing cut off can commit: some further steps of its own publish
    just its trees under its number.
   */
  lemma CommitCompletes(s: State) returns (s': State)
    requires Good(s) && InPhase(s, Running) && s.writer.value.work.detached == {}
    ensures Good(s') && s'.writer.None? && s'.mti == s.writer.value.txnid
    ensures MetaAt(s', s'.mti).txnid == s'.mti
    ensures Trees(MetaAt(s', s'.mti).roots, MetaAt(s', s'.mti).view) == TreesOf(s.writer.value.work)
  {
    hide Good;
    var s1 := SaveStep(s);
    var s2 := FlushAll(s1);
    var s3 := SyncStep(s2);
    s' := PublishSynced(s3);
  }

  lemma SaveStep(s: State) returns (s': State)
    requires Good(s) && InPhase(s, Running) && s.writer.value.work.detached == {}
    ensures Good(s') && InPhase(s', Saved) && s'.writer.value.txnid == s.writer.value.txnid
    ensures TreesOf(s'.writer.value.work) == TreesOf(s.writer.value.work)
  {
    hide Inv, CanSave, Reachable;
    var recs := SomeSave(s);
    GoodStep(s, Save(recs));
    s' := Apply(s, Save(recs));
  }

  lemma SyncStep(s: State) returns (s': State)
    requires Good(s) && InPhase(s, Saved) && s.writer.value.work.dirty == {}
    ensures Good(s') && InPhase(s', Synced) && s'.writer.value.txnid == s.writer.value.txnid
    ensures TreesOf(s'.writer.value.work) == TreesOf(s.writer.value.work)
  {
    hide Inv, Reachable;
    GoodStep(s, Sync);
    s' := Apply(s, Sync);
  }

  lemma PublishSynced(s: State) returns (s': State)
    requires Good(s) && InPhase(s, Synced)
    ensures Good(s') && s'.writer.None? && s'.mti == s.writer.value.txnid
    ensures MetaAt(s', s'.mti).txnid == s'.mti
    ensures Trees(MetaAt(s', s'.mti).roots, MetaAt(s', s'.mti).view) == TreesOf(s.writer.value.work)
  {
    hide Reachable, WorkInv, MetaOk, Intact, ReaderInv;
    GoodStep(s, WriteMeta);
    PickedStep(s, WriteMeta);
    var s1 := Apply(s, WriteMeta);
    PublishSelects(s1);
    hide Inv;
    GoodStep(s1, Publish);
    s' := Apply(s1, Publish);
  }

  // ---------------------------------------------------------------- spilling

  /**
    A dirty page of the trees can be written out early and made dirty again; it is on disk, and
    nothing else changes.
   */
  lemma SpillRoundTrip(s: State, p: PgNo)
    requires InPhase(s, Running) && p in s.writer.value.work.view && p in s.writer.value.work.dirty
    requires p !in s.writer.value.work.spilled
    ensures Enabled(s, Spill(p))
    ensures var s1 := Apply(s, Spill(p));
      && Enabled(s1, Do(Unspill(p)))
      && s1.disk == s.disk[p := s.writer.value.work.view[p]]
      && p !in s1.writer.value.work.dirty && p in s1.writer.value.work.spilled
      && Apply(s1, Do(Unspill(p))) == s.(disk := s1.disk, unsynced := s.unsynced + {p})
  {
    var w := s.writer.value.work;
    assert w.dirty - {p} + {p} == w.dirty && w.spilled + {p} - {p} == w.spilled;
  }

  // ---------------------------------------------------------------- reclaiming

  /** There is an oldest transaction to find. */
  lemma {:induction false} SomeOldest(readers: map<Slot, Meta>, txnid: TxnId) returns (o: TxnId)
    requires txnid > 0
    ensures IsOldest(readers, txnid, o)
    decreases |readers|
  {
    if readers == map[] {
      o := txnid - 1;
    } else {
      var r :| r in readers;
      var rest := readers - {r};
      assert rest.Keys == readers.Keys - {r};
      assert |rest.Keys| < |readers.Keys|;
      var o' := SomeOldest(rest, txnid);
      o := if readers[r].txnid < o' then readers[r].txnid else o';
      forall q | q in readers ensures o <= readers[q].txnid {
        if q != r { assert q in rest; }
      }
      if o != txnid - 1 { OldestFrom(readers, rest, r, txnid, o', o); }
    }
  }

  lemma OldestFrom(readers: map<Slot, Meta>, rest: map<Slot, Meta>, r: Slot, txnid: TxnId, o': TxnId, o: TxnId)
    requires r in readers && rest == readers - {r} && IsOldest(rest, txnid, o') && o != txnid - 1
    requires o == if readers[r].txnid < o' then readers[r].txnid else o'
    ensures exists q :: q in readers && o == readers[q].txnid
  {
    if o == o' {
      var q :| q in rest && o == rest[q].txnid;
      assert q in readers && readers[q] == rest[q];
    }
  }

  /**
    The first record not yet consumed can be reclaimed, after a look at the readers, exactly when it
    is older than every reader's snapshot and than the last commit; its pages join the reclaimed ones.
   */
  lemma ReclaimPossible(s: State, k: TxnId, o: TxnId)
    requires InPhase(s, Running) && s.writer.value.txnid > 0 && IsOldest(s.readers, s.writer.value.txnid, o)
    requires var w := s.writer.value.work;
      k in w.freedb && w.pglast < k && forall j :: j in w.freedb && w.pglast < j ==> k <= j
    ensures Enabled(s, RefreshOldest(o))
    ensures var s1, w := Apply(s, RefreshOldest(o)), s.writer.value.work;
      && s1.writer == s.writer
      && (Enabled(s1, Reclaim(k)) <==>
          k + 1 < s.writer.value.txnid && forall r :: r in s.readers ==> k < s.readers[r].txnid)
      && (Enabled(s1, Reclaim(k)) ==>
          var w' := Apply(s1, Reclaim(k)).writer.value.work;
          w' == w.(hasHead := true, pghead := w.pghead + w.freedb[k], pglast := k))
  {}

  // ---------------------------------------------------------------- transactions that do not commit

  /** A transaction without loose pages can be aborted at any time before its meta page write, and leaves no trace. */
  lemma AbortForgets(s: State)
    requires s.writer.Some? && s.writer.value.phase != Written && s.writer.value.work.loose == []
    ensures Enabled(s, Abort([]))
    ensures var s' := Apply(s, Abort([]));
      && s'.writer.None? && LeftoverOf(s', s.writer.value.env) == []
      && (s'.meta0, s'.meta1, s'.mti, s'.disk, s'.readers) == (s.meta0, s.meta1, s.mti, s.disk, s.readers)
  {}

  /** A writer can die at any time; whoever comes next finds the picked meta page, and the readers stay. */
  lemma DeathForgets(s: State)
    requires s.writer.Some?
    ensures Enabled(s, WriterDies)
    ensures var s' := Apply(s, WriterDies);
      && s'.writer.None? && s'.mti == Picked(s).txnid && Picked(s') == Picked(s)
      && (s'.meta0, s'.meta1, s'.disk, s'.readers) == (s.meta0, s.meta1, s.disk, s.readers)
  {}

  // ---------------------------------------------------------------- a run

  lemma FirstWriter() returns (s: State)
    ensures Good(s) && s == INIT.(writer := Some(Writer(0, 1, Running, Fresh(EMPTY_META))))
  {
    InitInv();
    assert IsRun([INIT], []);
    assert Good(INIT);
    hide Inv, Reachable;
    GoodStep(INIT, BeginWrite(0));
    s := Apply(INIT, BeginWrite(0));
  }

  lemma FirstAlloc(s: State) returns (s': State)
    requires Good(s) && s == INIT.(writer := Some(Writer(0, 1, Running, Fresh(EMPTY_META))))
    ensures Good(s') && InPhase(s', Running) && s'.writer.value.txnid == 1 && s'.readers == map[]
    ensures s'.writer.value.work.roots == {} && s'.writer.value.work.detached == {2}
    ensures s'.writer.value.work.view == map[2 := Page({}, [])]
  {
    hide Good;
    var pages := map[2 := Page({}, [])];
    assert |pages| == 1 && pages.Keys == Run(2, 1) && Blank(pages);
    hide Run, Blank;
    GoodStep(s, Do(AllocNew(pages)));
    s' := Apply(s, Do(AllocNew(pages)));
  }

  /** A new environment, in which a writer puts a first page below a root. */
  lemma FirstPage() returns (s: State)
    ensures Good(s) && InPhase(s, Running) && s.writer.value.txnid == 1
    ensures s.writer.value.work.detached == {}
    ensures TreesOf(s.writer.value.work) == Trees({2}, map[2 := Page({}, [])])
  {
    hide Good;
    var s1 := FirstWriter();
    var s2 := FirstAlloc(s1);
    GoodStep(s2, Do(LinkRoot(2)));
    s := Apply(s2, Do(LinkRoot(2)));
  }

  /** There is a run in which a reader sees what a writer has committed. */
  lemma FirstCommitIsSeen()
    ensures exists s ::
      && Good(s) && 0 in s.readers && s.readers[0].txnid == 1
      && Trees(s.readers[0].roots, s.readers[0].view) == Trees({2}, map[2 := Page({}, [])])
  {
    hide Good;
    var s := FirstPage();
    var s1 := CommitCompletes(s);
    if 0 in s1.readers {
      GoodStep(s1, EndRead(0));
      s1 := Apply(s1, EndRead(0));
    }
    GoodStep(s1, BeginRead(0));
    var s2 := Apply(s1, BeginRead(0));
    assert Good(s2) && 0 in s2.readers && s2.readers[0].txnid == 1;
  }
}
