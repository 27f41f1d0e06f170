/**
  Multi-version page recycling: one writer at a time, any number of readers, two
  alternating meta pages, and a free-page database ("freeDB") whose records are keyed
  by the transaction that freed their pages.

  The environment is a state machine.  Every way the engine can move a page number or
  write a page is one `Step`; a `Crash` may garble every page written since the last
  sync.  The main theorems are about every state of every run.
 */
module Recycler {
  import opened Options

  type PgNo = nat
  type TxnId = nat
  type EnvId = nat
  type Slot = nat

  /** A page: the page numbers it refers to (children, overflow runs, sub-database roots) and the rest. */
  datatype Page = Page(refs: set<PgNo>, body: seq<nat>)

  /** Page lists of the freeDB, by transaction number. */
  type FreeDb = map<TxnId, multiset<PgNo>>

  /**
    A meta page: transaction number, tree roots, first unallocated page number.  `view`
    and `freedb` are what the roots describe: the committed pages and the freeDB records.
   */
  datatype Meta = Meta(txnid: TxnId, roots: set<PgNo>, view: map<PgNo, Page>, freedb: FreeDb, next: nat)

  /** What a write transaction works on. */
  datatype Work = Work(
    roots: set<PgNo>,
    view: map<PgNo, Page>,     // pages of the trees as the writer sees them
    detached: set<PgNo>,       // pages of `view` that an unfinished operation has not linked yet, or no more
    dirty: set<PgNo>,          // dirty list
    spilled: set<PgNo>,        // dirty pages written out early
    freePgs: multiset<PgNo>,   // mt_free_pgs
    loose: seq<PgNo>,          // mt_loose_pgs, a stack
    hasHead: bool,             // me_pghead != NULL
    pghead: multiset<PgNo>,    // me_pghead: reclaimed page numbers
    pglast: TxnId,             // me_pglast: last freeDB record consumed
    freedb: FreeDb,
    next: nat)                 // mt_next_pgno

  datatype Phase = Running | Saved | Synced | Written

  datatype Writer = Writer(env: EnvId, txnid: TxnId, phase: Phase, work: Work)

  datatype State = State(
    meta0: Meta,
    meta1: Meta,
    mti: TxnId,                     // mti_txnid in the lock file
    disk: map<PgNo, Page>,
    unsynced: set<PgNo>,            // pages written since the last sync
    readers: map<Slot, Meta>,       // reader table with the snapshot each reader copied
    pgoldest: map<EnvId, TxnId>,    // me_pgoldest of each environment handle
    leftover: map<EnvId, seq<PgNo>>,// mt_loose_pgs of each idle me_txn0
    writer: Option<Writer>)

  /** Steps that change only the running writer's own data. */
  datatype WorkStep =
    | AllocLoose(body: seq<nat>)
    | AllocHead(start: PgNo, pages: map<PgNo, Page>)
    | AllocNew(pages: map<PgNo, Page>)
    | Link(parent: PgNo, child: PgNo)
    | LinkRoot(child: PgNo)
    | Unlink(parent: PgNo, child: PgNo)
    | UnlinkRoot(child: PgNo)
    | Free(pgno: PgNo)
    | Loosen(pgno: PgNo)
    | FreeRun(start: PgNo, num: nat)
    | Modify(pgno: PgNo, body: seq<nat>)
    | Unspill(pgno: PgNo)

  datatype Step =
    | BeginRead(slot: Slot)
    | EndRead(slot: Slot)
    | BeginWrite(env: EnvId)
    | RefreshOldest(oldest: TxnId)
    | Reclaim(key: TxnId)
    | Do(op: WorkStep)
    | Spill(pgno: PgNo)
    | Save(recs: FreeDb)
    | Flush(pgno: PgNo, page: Page)
    | Sync
    | WriteMeta
    | Publish
    | CommitEmpty
    | Abort(links: seq<PgNo>)
    | WriterDies
    | Crash(garbled: map<PgNo, Page>)

  // ---------------------------------------------------------------- page sets

  /** The contiguous page numbers start .. start + num - 1. */
  function Run(start: PgNo, num: nat): (r: set<PgNo>)
    ensures forall p :: p in r <==> start <= p < start + num
    ensures |r| == num
  {
    if num == 0 then {} else Run(start, num - 1) + {start + num - 1}
  }

  /** Everything stored in some record. */
  ghost function Flat(m: FreeDb): multiset<PgNo>
    decreases |m|
  {
    if m == map[] then multiset{} else
      var k :| k in m;
      assert (m - {k}).Keys == m.Keys - {k};
      m[k] + Flat(m - {k})
  }

  /** The records the writer has not consumed. */
  function LiveRecs(w: Work): FreeDb {
    map k | k in w.freedb && w.pglast < k :: w.freedb[k]
  }

  /** How many owners page `p` has. */
  ghost function Owners(w: Work, p: PgNo): nat {
    (if p in w.view then 1 else 0) + w.freePgs[p] + multiset(w.loose)[p] + w.pghead[p] + Flat(LiveRecs(w))[p]
  }

  /** Every page number below `next`, except the meta pages, has exactly one owner; no other has any. */
  ghost predicate Conserved(w: Work) {
    && 2 <= w.next
    && forall p: PgNo :: Owners(w, p) == if 2 <= p < w.next then 1 else 0
  }

  // ---------------------------------------------------------------- the steps

  function Fresh(m: Meta): Work {
    Work(m.roots, m.view, {}, {}, {}, multiset{}, [], false, multiset{}, 0, m.freedb, m.next)
  }

  function MetaAt(s: State, t: TxnId): Meta {
    if t % 2 == 0 then s.meta0 else s.meta1
  }

  /** mdb_env_pick_meta */
  function Picked(s: State): Meta {
    if s.meta0.txnid < s.meta1.txnid then s.meta1 else s.meta0
  }

  function OldestOf(s: State, e: EnvId): TxnId {
    if e in s.pgoldest then s.pgoldest[e] else 0
  }

  function LeftoverOf(s: State, e: EnvId): seq<PgNo> {
    if e in s.leftover then s.leftover[e] else []
  }

  /** What mdb_find_oldest returns: the least of txnid - 1 and the readers' transactions. */
  ghost predicate IsOldest(readers: map<Slot, Meta>, txnid: TxnId, o: TxnId) {
    && o + 1 <= txnid
    && (forall r :: r in readers ==> o <= readers[r].txnid)
    && (o + 1 == txnid || exists r :: r in readers && o == readers[r].txnid)
  }

  /** A walk from one of the `tops` along references. */
  ghost predicate Walk(pages: map<PgNo, Page>, tops: set<PgNo>, path: seq<PgNo>) {
    && path != []
    && path[0] in tops
    && forall i :: 0 <= i < |path| - 1 ==> path[i] in pages && path[i + 1] in pages[path[i]].refs
  }

  ghost predicate WalkTo(pages: map<PgNo, Page>, tops: set<PgNo>, path: seq<PgNo>, p: PgNo) {
    Walk(pages, tops, path) && path[|path| - 1] == p
  }

  ghost predicate Reached(pages: map<PgNo, Page>, tops: set<PgNo>, p: PgNo) {
    exists path :: WalkTo(pages, tops, path, p)
  }

  /** A page has at most one referrer: being a root, being detached, or one page of the view. */
  ghost predicate OneReferrer(roots: set<PgNo>, detached: set<PgNo>, view: map<PgNo, Page>) {
    && roots !! detached && roots + detached <= view.Keys
    && (forall q, p :: q in view && p in view[q].refs ==> p in view && p !in roots && p !in detached)
    && (forall q, r, p :: q in view && r in view && p in view[q].refs && p in view[r].refs ==> q == r)
  }

  ghost predicate AllReached(view: map<PgNo, Page>, tops: set<PgNo>) {
    forall p :: p in view ==> Reached(view, tops, p)
  }

  /** Trees: every page is reached from a root or a detached page, and has exactly one referrer. */
  ghost predicate Forest(roots: set<PgNo>, detached: set<PgNo>, view: map<PgNo, Page>) {
    OneReferrer(roots, detached, view) && AllReached(view, roots + detached)
  }

  /** New pages refer to nothing. */
  predicate Blank(pages: map<PgNo, Page>) {
    forall p :: p in pages ==> pages[p].refs == {}
  }

  function SetRefs(view: map<PgNo, Page>, p: PgNo, refs: set<PgNo>): map<PgNo, Page>
    requires p in view
  {
    view[p := Page(refs, view[p].body)]
  }

  // Each step of the writer's own data: its guard, then its effect.

  ghost predicate CanDo(w: Work, op: WorkStep) {
    match op
    case AllocLoose(_) => w.loose != []
    case AllocHead(start, pages) =>
      pages.Keys == Run(start, |pages|) && pages != map[] && Blank(pages) && multiset(pages.Keys) <= w.pghead
    case AllocNew(pages) => pages.Keys == Run(w.next, |pages|) && Blank(pages)
    case Link(p, c) =>
      // a page is never put below itself
      p in w.view && p in w.dirty && c in w.detached && Reached(w.view, w.roots + w.detached - {c}, p)
    case LinkRoot(c) => c in w.detached
    case Unlink(p, c) => p in w.view && p in w.dirty && c in w.view[p].refs
    case UnlinkRoot(c) => c in w.roots
    case Free(p) => p in w.view && p in w.detached
    case Loosen(p) => p in w.view && p in w.detached && p in w.dirty
    case FreeRun(start, num) =>
      && w.hasHead && Run(start, num) <= w.detached && Run(start, num) <= w.view.Keys
      && Run(start, num) <= w.dirty + w.spilled && (forall p :: p in Run(start, num) ==> w.view[p].refs == {})
    case Modify(p, _) => p in w.view && p in w.dirty
    case Unspill(p) => p in w.view && p in w.spilled
  }

  ghost function Done(w: Work, op: WorkStep): Work
    requires CanDo(w, op)
  {
    match op
    case AllocLoose(body) =>
      w.(loose := w.loose[1..], view := w.view[w.loose[0] := Page({}, body)], detached := w.detached + {w.loose[0]})
    case AllocHead(start, pages) =>
      w.(pghead := w.pghead - multiset(pages.Keys), view := w.view + pages, dirty := w.dirty + pages.Keys,
         detached := w.detached + pages.Keys)
    case AllocNew(pages) =>
      w.(next := w.next + |pages|, view := w.view + pages, dirty := w.dirty + pages.Keys,
        detached := w.detached + pages.Keys)
    case Link(p, c) => w.(view := SetRefs(w.view, p, w.view[p].refs + {c}), detached := w.detached - {c})
    case LinkRoot(c) => w.(roots := w.roots + {c}, detached := w.detached - {c})
    case Unlink(p, c) => w.(view := SetRefs(w.view, p, w.view[p].refs - {c}), detached := w.detached + {c})
    case UnlinkRoot(c) => w.(roots := w.roots - {c}, detached := w.detached + {c})
    case Free(p) =>
      w.(view := w.view - {p}, detached := w.detached - {p} + w.view[p].refs, freePgs := w.freePgs + multiset{p})
    case Loosen(p) =>
      w.(view := w.view - {p}, detached := w.detached - {p} + w.view[p].refs, loose := [p] + w.loose)
    case FreeRun(start, num) =>
      w.(view := w.view - Run(start, num), detached := w.detached - Run(start, num),
         pghead := w.pghead + multiset(Run(start, num)),
         dirty := w.dirty - Run(start, num), spilled := w.spilled - Run(start, num))
    case Modify(p, body) => w.(view := w.view[p := Page(w.view[p].refs, body)])
    case Unspill(p) => w.(dirty := w.dirty + {p}, spilled := w.spilled - {p})
  }

  /** Only the first record after `pglast`, and only when older than every snapshot. */
  predicate CanReclaim(w: Work, oldest: TxnId, k: TxnId) {
    k in w.freedb && w.pglast < k < oldest && forall j :: j in w.freedb && w.pglast < j ==> k <= j
  }

  function Reclaimed(w: Work, k: TxnId): Work
    requires k in w.freedb
  {
    w.(hasHead := true, pghead := w.pghead + w.freedb[k], pglast := k)
  }

  /** mdb_freelist_save stores every reclaimed and loose page under keys 1 .. pglast; no tree operation is half done. */
  ghost predicate CanSave(w: Work, recs: FreeDb) {
    && w.detached == {}
    && (forall k :: k in recs ==> 1 <= k <= w.pglast)
    && Flat(recs) == if w.hasHead then w.pghead + multiset(w.loose) else multiset{}
  }

  /** mdb_freelist_save as a whole: consumed records deleted, own frees under `txnid`, the rest under `recs`. */
  function SaveWork(w: Work, txnid: TxnId, recs: FreeDb): Work {
    var freed := w.freePgs + if w.hasHead then multiset{} else multiset(w.loose);
    w.(freePgs := multiset{}, loose := [], hasHead := false, pghead := multiset{}, pglast := 0,
       freedb := LiveRecs(w) + recs + map[txnid := freed])
  }

  // Steps of the environment.

  function SetWork(s: State, w: Work): State
    requires s.writer.Some?
  {
    s.(writer := Some(s.writer.value.(work := w)))
  }

  function SetPhase(s: State, ph: Phase): State
    requires s.writer.Some?
  {
    s.(writer := Some(s.writer.value.(phase := ph)))
  }

  function WritePage(s: State, p: PgNo, c: Page): State {
    s.(disk := s.disk[p := c], unsynced := s.unsynced + {p})
  }

  function ReadBegun(s: State, r: Slot): State {
    s.(readers := s.readers[r := MetaAt(s, s.mti)])
  }

  function WriteBegun(s: State, e: EnvId): State {
    s.(writer := Some(Writer(e, s.mti + 1, Running, Fresh(MetaAt(s, s.mti)).(loose := LeftoverOf(s, e)))))
  }

  function NewMeta(wr: Writer): Meta {
    Meta(wr.txnid, wr.work.roots, wr.work.view, wr.work.freedb, wr.work.next)
  }

  /** mdb_env_write_meta: transaction N replaces meta page N % 2. */
  function MetaWritten(s: State): State
    requires s.writer.Some?
  {
    var m := NewMeta(s.writer.value);
    SetPhase(if m.txnid % 2 == 0 then s.(meta0 := m) else s.(meta1 := m), Written)
  }

  /** The transaction ends; `left` stays on its loose list. */
  function Ended(s: State, left: seq<PgNo>): State
    requires s.writer.Some?
  {
    s.(writer := None, leftover := s.leftover[s.writer.value.env := left])
  }

  function Died(s: State): State
    requires s.writer.Some?
  {
    var e := s.writer.value.env;
    s.(writer := None, mti := Picked(s).txnid, pgoldest := s.pgoldest - {e}, leftover := s.leftover - {e})
  }

  function Crashed(s: State, g: map<PgNo, Page>): State {
    s.(writer := None, mti := Picked(s).txnid, disk := s.disk + g, unsynced := {}, readers := map[],
      pgoldest := map[], leftover := map[])
  }

  predicate InPhase(s: State, ph: Phase) {
    s.writer.Some? && s.writer.value.phase == ph
  }

  predicate CanFlush(w: Work, p: PgNo, c: Page) {
    p in w.dirty && (p in w.view ==> c == w.view[p])
  }

  /** No dirty page, and neither MDB_TXN_DIRTY nor MDB_TXN_SPILLS: nothing was freed and no root changed. */
  predicate Untouched(w: Work, m: Meta) {
    w.dirty == w.spilled == {} && w.freePgs == multiset{} && w.roots == m.roots
  }

  ghost predicate Enabled(s: State, st: Step) {
    match st
    case BeginRead(r) => r !in s.readers
    case EndRead(r) => r in s.readers
    case BeginWrite(e) => s.writer.None?
    case RefreshOldest(o) => InPhase(s, Running) && IsOldest(s.readers, s.writer.value.txnid, o)
    case Reclaim(k) => InPhase(s, Running) && CanReclaim(s.writer.value.work, OldestOf(s, s.writer.value.env), k)
    case Do(op) => InPhase(s, Running) && CanDo(s.writer.value.work, op)
    case Spill(p) => InPhase(s, Running) && p in s.writer.value.work.view && p in s.writer.value.work.dirty
    case Save(recs) => InPhase(s, Running) && CanSave(s.writer.value.work, recs)
    case Flush(p, c) => InPhase(s, Saved) && CanFlush(s.writer.value.work, p, c)
    case Sync => InPhase(s, Saved) && s.writer.value.work.dirty !! s.writer.value.work.view.Keys
    case WriteMeta => InPhase(s, Synced)
    case Publish => InPhase(s, Written)
    case CommitEmpty => InPhase(s, Running) && Untouched(s.writer.value.work, MetaAt(s, s.mti))
    case Abort(links) => s.writer.Some? && s.writer.value.phase != Written && |links| == |s.writer.value.work.loose|
    case WriterDies => s.writer.Some?
    case Crash(g) => g.Keys <= s.unsynced
  }

  ghost function Apply(s: State, st: Step): State
    requires Enabled(s, st)
  {
    match st
    case BeginRead(r) => ReadBegun(s, r)
    case EndRead(r) => s.(readers := s.readers - {r})
    case BeginWrite(e) => WriteBegun(s, e)
    case RefreshOldest(o) => s.(pgoldest := s.pgoldest[s.writer.value.env := o])
    case Reclaim(k) => SetWork(s, Reclaimed(s.writer.value.work, k))
    case Do(op) => SetWork(s, Done(s.writer.value.work, op))
    case Spill(p) =>
      var w := s.writer.value.work;
      WritePage(SetWork(s, w.(dirty := w.dirty - {p}, spilled := w.spilled + {p})), p, w.view[p])
    case Save(recs) => SetPhase(SetWork(s, SaveWork(s.writer.value.work, s.writer.value.txnid, recs)), Saved)
    case Flush(p, c) =>
      var w := s.writer.value.work;
      WritePage(SetWork(s, w.(dirty := w.dirty - {p})), p, c)
    case Sync => SetPhase(s.(unsynced := {}), Synced)
    case WriteMeta => MetaWritten(s)
    case Publish => s.(writer := None, mti := s.writer.value.txnid)
    case CommitEmpty => Ended(s, s.writer.value.work.loose)
    case Abort(links) => Ended(s, links)
    case WriterDies => Died(s)
    case Crash(g) => Crashed(s, g)
  }

  const EMPTY_META := Meta(0, {}, map[], map[], 2)

  /** A freshly created environment: two identical meta pages. */
  const INIT := State(EMPTY_META, EMPTY_META, 0, map[], {}, map[], map[], map[], None)

  // ---------------------------------------------------------------- the invariant

  /** The snapshots something may still read: both meta pages and every reader's copy. */
  function Live(s: State): set<Meta> {
    {s.meta0, s.meta1} + s.readers.Values
  }

  /** Page numbers the writer may overwrite, now or after further allocation. */
  ghost function Overwritable(w: Work): set<PgNo> {
    w.dirty + w.spilled + (set p | p in w.loose) + (set p | p in w.pghead)
  }

  /** Page `p` of a snapshot taken at `t` is out of the writer's reach. */
  ghost predicate Kept(w: Work, t: TxnId, p: PgNo) {
    && p !in w.dirty && p !in w.spilled
    && (p in w.view || p in w.freePgs || exists k :: k in LiveRecs(w) && t < k && p in LiveRecs(w)[k])
  }

  ghost predicate Keeps(w: Work, m: Meta) {
    forall p :: p in m.view ==> Kept(w, m.txnid, p)
  }

  ghost predicate Intact(disk: map<PgNo, Page>, m: Meta) {
    forall p :: p in m.view ==> p in disk && disk[p] == m.view[p]
  }

  ghost predicate WorkInv(live: set<Meta>, w: Work) {
    && Conserved(w)
    && forall m :: m in live ==> Keeps(w, m)
  }

  ghost predicate KeysUpTo(f: FreeDb, t: TxnId) {
    forall k :: k in f ==> 1 <= k <= t
  }

  ghost predicate MetaOk(m: Meta) {
    && Forest(m.roots, {}, m.view)
    && KeysUpTo(m.freedb, m.txnid)
    && Conserved(Fresh(m))
  }

  /** Pages the writer has not made dirty are on disk as the writer sees them. */
  ghost predicate CleanOnDisk(disk: map<PgNo, Page>, w: Work) {
    forall p :: p in w.view && p !in w.dirty ==> p in disk && disk[p] == w.view[p]
  }

  /** Pages of the writer's trees that are not in the snapshot it started from are dirty or spilled. */
  ghost predicate NewIsDirty(w: Work, m: Meta) {
    forall p :: p in w.view ==> p in w.dirty || p in w.spilled || p in m.view
  }

  ghost predicate WriterInv(s: State) {
    s.writer.Some? ==>
      var wr := s.writer.value;
      var w := wr.work;
      && wr.txnid == s.mti + 1
      && (wr.phase != Written ==>
          && WorkInv(Live(s), w)
          && Forest(w.roots, w.detached, w.view)
          && CleanOnDisk(s.disk, w)
          && (forall p :: p in w.loose ==> p in w.dirty)
          && w.pglast <= s.mti)
      && (wr.phase == Running ==>
          && KeysUpTo(w.freedb, s.mti) && (if w.hasHead then w.pglast >= 1 else w.pghead == multiset{})
          && NewIsDirty(w, MetaAt(s, s.mti)))
      && (wr.phase == Saved || wr.phase == Synced ==>
          && w.loose == [] && w.pghead == w.freePgs == multiset{} && w.pglast == 0
          && w.detached == {} && KeysUpTo(w.freedb, wr.txnid))
      && (wr.phase == Synced ==> s.unsynced == {} && w.dirty !! w.view.Keys)
  }

  ghost predicate MetaInv(s: State) {
    var cur, oth := MetaAt(s, s.mti), MetaAt(s, s.mti + 1);
    && cur.txnid == s.mti
    && (if InPhase(s, Written) then oth.txnid == s.mti + 1 else oth.txnid + 1 == s.mti || oth.txnid == s.mti == 0)
    && (forall m :: m in Live(s) ==> MetaOk(m) && Intact(s.disk, m) && s.unsynced !! m.view.Keys)
    && WorkInv(Live(s), Fresh(Picked(s)))
  }

  ghost predicate ReaderInv(s: State) {
    && (forall r :: r in s.readers ==> s.readers[r].txnid <= s.mti)
    && (forall e :: e in s.pgoldest ==>
          && s.pgoldest[e] <= s.mti
          && forall r :: r in s.readers ==> s.pgoldest[e] <= s.readers[r].txnid)
  }

  ghost predicate Inv(s: State) {
    && MetaInv(s)
    && ReaderInv(s)
    && WriterInv(s)
    && forall e :: e in s.leftover ==> s.leftover[e] == []
  }
}
