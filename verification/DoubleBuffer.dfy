/**
  The two buffers of the compacting copy, as a state machine over the steps of both threads: the
  walk fills one buffer while the writer thread writes the other.

  The mutex is held by the writer throughout a write.  A condition wait gives it up; a waiting
  thread may go on after a signal, or for no reason.
 */
module DoubleBuffer {

  /** The page size, and how many pages fill MDB_WBUF. */
  datatype Env = Env(psize: nat, pages: nat)

  predicate EnvOk(env: Env) {
    env.psize > 0 && env.pages >= 2
  }

  function WBuf(env: Env): nat {
    env.pages * env.psize
  }

  /** The writer thread, mdb_env_copythr. */
  datatype Writer =
    | WStart                                   // not yet run
    | WCheck                                   // looking at mc_new, with the mutex
    | WWait(woken: bool)                       // in pthread_cond_wait
    | WWrite(rest: seq<nat>)                   // writing, with the mutex
    | WExit                                    // told to stop, with the mutex
    | WDone

  /** Why the producer waits: for the thread to start, to hand over a buffer, or for the end. */
  datatype Goal = Started | HandOver(last: bool) | Stop | Ended

  /** The producer: mdb_env_copyfd1 and mdb_env_cwalk, and mdb_env_cthr_toggle. */
  datatype Producer =
    | PSetup                                   // before the meta pages are in buffer 0
    | PFill                                    // the walk
    | PLock(goal: Goal)                        // about to lock the mutex
    | PCheck(goal: Goal)                       // with the mutex
    | PWait(goal: Goal, woken: bool)           // in pthread_cond_wait
    | PEnd

  /** One buffer: mc_wbuf up to mc_wlen, and the overflow tail mc_over up to mc_olen. */
  datatype Buffer = Buffer(body: seq<nat>, tail: seq<nat>)

  datatype State = State(
    flag: int,              // mc_new
    wt: bool,               // the writer's toggle
    pt: bool,               // mc_toggle
    b0: Buffer, b1: Buffer,
    file: seq<nat>,
    emitted: seq<nat>,      // everything that the producer has put into buffers
    w: Writer, p: Producer)

  function Get(s: State, t: bool): Buffer {
    if t then s.b1 else s.b0
  }

  function Set(s: State, t: bool, b: Buffer): (s': State)
    ensures Get(s', t) == b && Get(s', !t) == Get(s, !t)
    ensures s' == s.(b0 := s'.b0, b1 := s'.b1)
  {
    if t then s.(b1 := b) else s.(b0 := b)
  }

  const EMPTY := Buffer([], [])

  function Content(b: Buffer): seq<nat> {
    b.body + b.tail
  }

  function Init(): State {
    State(1, false, false, EMPTY, EMPTY, [], [], WStart, PSetup)
  }

  predicate WHolds(s: State) { s.w.WCheck? || s.w.WWrite? || s.w.WExit? }
  predicate PHolds(s: State) { s.p.PCheck? }

  /** pthread_cond_signal */
  function WakeWriter(s: State): State {
    if s.w.WWait? then s.(w := WWait(true)) else s
  }

  function WakeProducer(s: State): State {
    if s.p.PWait? then s.(p := PWait(s.p.goal, true)) else s
  }

  // ---------------------------------------------------------------- steps

  datatype Step =
    // writer
    | Begin                    // lock, mc_new = 0, signal
    | Look                     // test mc_new
    | WakeW                    // return from the wait, with the mutex
    | WriteSome(n: nat)        // write(2) takes n bytes
    | Next                     // nothing left of this part: the tail, or the next buffer
    | Leave                    // signal, unlock
    // producer
    | Metas(data: seq<nat>)
    | Append(page: seq<nat>)
    | AppendRun(page: seq<nat>, tail: seq<nat>)
    | HandOverFull
    | Finish
    | Lock
    | Test                     // the loop condition under the mutex
    | WakeP

  /** The condition of the producer's wait loop. */
  predicate MustWait(s: State, goal: Goal) {
    match goal
    case Started => s.flag != 0
    case HandOver(_) => s.flag == 1
    case Stop => s.flag == 1
    case Ended => s.flag != 0
  }

  predicate Enabled(env: Env, s: State, step: Step) {
    match step
    case Begin => s.w.WStart? && !PHolds(s)
    case Look => s.w.WCheck?
    case WakeW => s.w.WWait? && !PHolds(s)
    case WriteSome(n) => s.w.WWrite? && 0 < n <= |s.w.rest|
    case Next => s.w.WWrite? && s.w.rest == []
    case Leave => s.w.WExit?
    case Metas(data) => s.p.PSetup? && |data| == 2 * env.psize
    case Append(page) => s.p.PFill? && |Get(s, s.pt).body| < WBuf(env) && |page| == env.psize
    case AppendRun(page, tail) => s.p.PFill? && |Get(s, s.pt).body| < WBuf(env) && |page| == env.psize && tail != []
    case HandOverFull => s.p.PFill? && |Get(s, s.pt).body| >= WBuf(env)
    case Finish => s.p.PFill?
    case Lock => s.p.PLock? && !WHolds(s)
    case Test => s.p.PCheck?
    case WakeP => s.p.PWait? && !WHolds(s)
  }

  function Apply(env: Env, s: State, step: Step): State
    requires Enabled(env, s, step)
  {
    match step
    case Begin => WakeProducer(s.(flag := 0, w := WCheck))
    case Look =>
      if s.flag == 0 then s.(w := WWait(false))
      else if s.flag < 0 then s.(flag := 0, w := WExit)
      else s.(flag := 0, w := WWrite(Get(s, s.wt).body))
    case WakeW => s.(w := WCheck)
    case WriteSome(n) => s.(file := s.file + s.w.rest[..n], w := WWrite(s.w.rest[n..]))
    case Next =>
      var b := Get(s, s.wt);
      if b.tail != [] then Set(s, s.wt, Buffer(b.body, [])).(w := WWrite(b.tail))
      else WakeProducer(Set(s, s.wt, EMPTY).(wt := !s.wt, w := WCheck))
    case Leave => WakeProducer(s.(w := WDone))
    case Metas(data) => Set(s, s.pt, Buffer(data, [])).(emitted := data, p := PLock(Started))
    case Append(page) =>
      Set(s, s.pt, Buffer(Get(s, s.pt).body + page, Get(s, s.pt).tail)).(emitted := s.emitted + page)
    case AppendRun(page, tail) =>
      Set(s, s.pt, Buffer(Get(s, s.pt).body + page, tail)).(emitted := s.emitted + page + tail,
        p := PLock(HandOver(false)))
    case HandOverFull => s.(p := PLock(HandOver(false)))
    case Finish => s.(p := PLock(if Get(s, s.pt).body != [] then HandOver(true) else Stop))
    case Lock => s.(p := PCheck(s.p.goal))
    case Test => if MustWait(s, s.p.goal) then s.(p := PWait(s.p.goal, false)) else Proceed(s, s.p.goal)
    case WakeP => s.(p := PCheck(s.p.goal))
  }

  /** After the wait loop: mdb_env_cthr_toggle sets mc_new and flips mc_toggle. */
  function Proceed(s: State, goal: Goal): State {
    match goal
    case Started => s.(p := PFill)
    case HandOver(last) => WakeWriter(s.(flag := 1, pt := !s.pt, p := if last then PLock(Stop) else PFill))
    case Stop => WakeWriter(s.(flag := -1, pt := !s.pt, p := PLock(Ended)))
    case Ended => s.(p := PEnd)
  }

  // ---------------------------------------------------------------- the invariant

  predicate GoalIs(s: State, goal: Goal) {
    s.p == PLock(goal) || s.p == PCheck(goal) || (s.p.PWait? && s.p.goal == goal)
  }

  predicate Early(s: State) { s.p.PSetup? || GoalIs(s, Started) }
  predicate Late(s: State) { GoalIs(s, Ended) || s.p.PEnd? }

  /** Everything emitted is in the file, or still to be written in this order. */
  ghost predicate Data(s: State) {
    match s.w
    case WStart =>
      s.flag == 1 && Early(s) && s.pt == s.wt && s.file + Content(Get(s, s.pt)) == s.emitted && Get(s, !s.pt) == EMPTY
    case WWrite(rest) =>
      s.flag == 0 && s.pt != s.wt && !Early(s) && !Late(s) &&
        s.file + rest + Get(s, s.wt).tail + Content(Get(s, s.pt)) == s.emitted
    case WExit => s.flag == 0 && s.file == s.emitted && Late(s)
    case WDone => s.flag == 0 && s.file == s.emitted && Late(s)
    case _ => // WCheck, WWait
      if s.flag == 0 then !Late(s) && s.pt == s.wt && s.file + Content(Get(s, s.pt)) == s.emitted &&
        Get(s, !s.pt) == EMPTY
      else if s.flag == 1 then !Early(s) && !Late(s) && s.pt != s.wt &&
        s.file + Content(Get(s, s.wt)) + Content(Get(s, s.pt)) == s.emitted
      else s.flag == -1 && s.file == s.emitted && GoalIs(s, Ended)
  }

  ghost predicate Phases(s: State) {
    && (s.p.PSetup? ==> s.file == [] && s.emitted == [] && Get(s, s.pt) == EMPTY)
    && (s.p.PFill? || Early(s) ==> Get(s, s.pt).tail == [])
    && (GoalIs(s, Stop) ==> Get(s, s.pt) == EMPTY)
    && (s.p.PEnd? ==> s.w.WDone?)
    && !(WHolds(s) && PHolds(s))
  }

  /** A sleeping thread waits for something that the other one is going to do. */
  ghost predicate Sleeps(s: State) {
    && (s.w == WWait(false) ==> s.flag == 0)
    && (s.p.PWait? && !s.p.woken ==> MustWait(s, s.p.goal) || s.w.WWrite? || s.w.WExit?)
  }

  /** A length of whole pages that fits into a buffer. */
  ghost predicate Whole(env: Env, len: nat) {
    exists k: nat :: k <= env.pages && len == k * env.psize
  }

  ghost predicate Fits(env: Env, b0: Buffer, b1: Buffer) {
    Whole(env, |b0.body|) && Whole(env, |b1.body|)
  }

  ghost predicate Inv(env: Env, s: State) {
    EnvOk(env) && Data(s) && Phases(s) && Sleeps(s) && Fits(env, s.b0, s.b1)
  }

  lemma InitInv(env: Env)
    requires EnvOk(env)
    ensures Inv(env, Init())
  {
    WholeEnds(env);
  }

  lemma BeginInv(env: Env, s: State)
    requires Inv(env, s) && Enabled(env, s, Begin)
    ensures Inv(env, Apply(env, s, Begin))
  {}

  lemma LookInv(env: Env, s: State)
    requires Inv(env, s) && Enabled(env, s, Look)
    ensures Inv(env, Apply(env, s, Look))
  {}

  lemma WriteInv(env: Env, s: State, n: nat)
    requires Inv(env, s) && Enabled(env, s, WriteSome(n))
    ensures Inv(env, Apply(env, s, WriteSome(n)))
  {
    assert s.w.rest == s.w.rest[..n] + s.w.rest[n..];
  }

  lemma NextInv(env: Env, s: State)
    requires Inv(env, s) && Enabled(env, s, Next)
    ensures Inv(env, Apply(env, s, Next))
  {
    var b := Get(s, s.wt);
    WholeEnds(env);
    if b.tail != [] {
      var s' := Set(s, s.wt, Buffer(b.body, []));
      assert Fits(env, s'.b0, s'.b1);
      hide Fits;
    } else {
      var s' := Set(s, s.wt, EMPTY);
      assert Fits(env, s'.b0, s'.b1);
      hide Fits;
    }
  }

  lemma WholeEnds(env: Env)
    requires EnvOk(env)
    ensures Whole(env, 0) && Whole(env, 2 * env.psize)
  {
    assert 0 == 0 * env.psize;
  }

  lemma MetasInv(env: Env, s: State, data: seq<nat>)
    requires Inv(env, s) && Enabled(env, s, Metas(data))
    ensures Inv(env, Apply(env, s, Metas(data)))
  {
    WholeEnds(env);
    hide Whole;
  }

  /** One more page fits into a buffer of whole pages that is not full. */
  lemma OneMore(env: Env, len: nat)
    requires EnvOk(env) && Whole(env, len) && len < WBuf(env)
    ensures Whole(env, len + env.psize)
  {
    var k: nat :| k <= env.pages && len == k * env.psize;
    assert k == env.pages ==> len == WBuf(env);
    assert len + env.psize == (k + 1) * env.psize;
  }

  lemma FitsPart(env: Env, s: State)
    requires Fits(env, s.b0, s.b1)
    ensures Whole(env, |Get(s, s.pt).body|)
  {}

  lemma FitsSet(env: Env, s: State, b: Buffer)
    requires Fits(env, s.b0, s.b1) && Whole(env, |b.body|)
    ensures Fits(env, Set(s, s.pt, b).b0, Set(s, s.pt, b).b1)
  {}

  /** More content in the buffer being filled is more at the end of what is to be written. */
  lemma Refilled(s: State, b: Buffer, x: seq<nat>, p: Producer)
    requires Data(s) && s.p.PFill? && Content(b) == Content(Get(s, s.pt)) + x &&
      (p.PFill? || p == PLock(HandOver(false)))
    ensures Data(Set(s, s.pt, b).(emitted := s.emitted + x, p := p))
  {
    hide Content, Set;
    match s.w
    case WWrite(rest) => Assoc(s.file + rest + Get(s, s.wt).tail, Content(Get(s, s.pt)), x);
    case _ =>
      Assoc(s.file, Content(Get(s, s.pt)), x);
      Assoc(s.file + Content(Get(s, s.wt)), Content(Get(s, s.pt)), x);
  }

  lemma Assoc(a: seq<nat>, b: seq<nat>, c: seq<nat>)
    ensures a + b + c == a + (b + c)
  {}

  lemma AppendInv(env: Env, s: State, page: seq<nat>)
    requires Inv(env, s) && Enabled(env, s, Append(page))
    ensures Inv(env, Apply(env, s, Append(page)))
  {
    var b := Get(s, s.pt);
    var b' := Buffer(b.body + page, b.tail);
    assert Content(b') == Content(b) + page;
    FitsPart(env, s);
    OneMore(env, |b.body|);
    FitsSet(env, s, b');
    Refilled(s, b', page, PFill);
    hide Data, Fits, Content, Whole;
  }

  lemma AppendRunInv(env: Env, s: State, page: seq<nat>, tail: seq<nat>)
    requires Inv(env, s) && Enabled(env, s, AppendRun(page, tail))
    ensures Inv(env, Apply(env, s, AppendRun(page, tail)))
  {
    var b := Get(s, s.pt);
    var b' := Buffer(b.body + page, tail);
    assert Content(b') == Content(b) + (page + tail);
    Assoc(s.emitted, page, tail);
    FitsPart(env, s);
    OneMore(env, |b.body|);
    FitsSet(env, s, b');
    Refilled(s, b', page + tail, PLock(HandOver(false)));
    hide Data, Fits, Content, Whole;
  }

  lemma TestInv(env: Env, s: State)
    requires Inv(env, s) && Enabled(env, s, Test)
    ensures Inv(env, Apply(env, s, Test))
  {
    hide Fits;
    match s.p.goal
    case Started => ProceedStarted(env, s);
    case HandOver(last) => ProceedHandOver(env, s, last);
    case Stop => ProceedStop(env, s);
    case Ended =>
  }

  lemma ProceedStarted(env: Env, s: State)
    requires Inv(env, s) && s.p == PCheck(Started)
    ensures !MustWait(s, Started) ==>
      Data(Proceed(s, Started)) && Phases(Proceed(s, Started)) && Sleeps(Proceed(s, Started))
  {
    hide Fits;
  }

  lemma ProceedHandOver(env: Env, s: State, last: bool)
    requires Inv(env, s) && s.p == PCheck(HandOver(last))
    ensures !MustWait(s, HandOver(last)) ==> var s' := Proceed(s, HandOver(last)); Data(s') && Phases(s') && Sleeps(s')
  {
    hide Fits;
  }

  lemma ProceedStop(env: Env, s: State)
    requires Inv(env, s) && s.p == PCheck(Stop)
    ensures !MustWait(s, Stop) ==> var s' := Proceed(s, Stop); Data(s') && Phases(s') && Sleeps(s')
  {
    hide Fits;
  }

  lemma OtherInv(env: Env, s: State, step: Step)
    requires Inv(env, s) && Enabled(env, s, step)
    requires step.WakeW? || step.Leave? || step.HandOverFull? || step.Finish? || step.Lock? || step.WakeP?
    ensures Inv(env, Apply(env, s, step))
  {
    hide Whole;
  }

  lemma StepInv(env: Env, s: State, step: Step)
    requires Inv(env, s) && Enabled(env, s, step)
    ensures Inv(env, Apply(env, s, step))
  {
    hide Inv, Enabled, Apply;
    match step
    case Begin => BeginInv(env, s);
    case Look => LookInv(env, s);
    case WriteSome(n) => WriteInv(env, s, n);
    case Next => NextInv(env, s);
    case Metas(data) => MetasInv(env, s, data);
    case Append(page) => AppendInv(env, s, page);
    case AppendRun(page, tail) => AppendRunInv(env, s, page, tail);
    case Test => TestInv(env, s);
    case _ => OtherInv(env, s, step);
  }

  // ---------------------------------------------------------------- every interleaving

  /** A run of both threads, in any interleaving of their steps. */
  ghost predicate IsRun(env: Env, run: seq<State>, steps: seq<Step>) {
    && |run| == |steps| + 1 && run[0] == Init()
    && forall i :: 0 <= i < |steps| ==> Enabled(env, run[i], steps[i]) && run[i + 1] == Apply(env, run[i], steps[i])
  }

  lemma {:induction false} RunInv(env: Env, run: seq<State>, steps: seq<Step>, i: nat)
    requires EnvOk(env) && IsRun(env, run, steps) && i <= |steps|
    ensures Inv(env, run[i])
    decreases i
  {
    if i == 0 {
      InitInv(env);
    } else {
      RunInv(env, run, steps, i - 1);
      StepInv(env, run[i - 1], steps[i - 1]);
    }
  }

  /** The step stores into the buffer that the producer fills. */
  predicate Stores(step: Step) {
    step.Metas? || step.Append? || step.AppendRun?
  }

  /** The buffer being filled is never the one being written, and never overflows. */
  lemma NeverTheSameBuffer(env: Env, run: seq<State>, steps: seq<Step>, i: nat)
    requires EnvOk(env) && IsRun(env, run, steps) && i < |steps|
    ensures run[i].w.WWrite? && Stores(steps[i]) ==>
      run[i].pt != run[i].wt && Get(run[i + 1], run[i].wt) == Get(run[i], run[i].wt)
    ensures |run[i].b0.body| <= WBuf(env) && |run[i].b1.body| <= WBuf(env)
  {
    RunInv(env, run, steps, i);
    FitsIsEnough(env, run[i]);
  }

  lemma FitsIsEnough(env: Env, s: State)
    requires Fits(env, s.b0, s.b1)
    ensures |s.b0.body| <= WBuf(env) && |s.b1.body| <= WBuf(env)
  {
    WholeIsEnough(env, |s.b0.body|);
    WholeIsEnough(env, |s.b1.body|);
  }

  lemma WholeIsEnough(env: Env, len: nat)
    requires Whole(env, len)
    ensures len <= WBuf(env)
  {
    var k: nat :| k <= env.pages && len == k * env.psize;
    TimesMono(k, env.pages, env.psize);
  }

  lemma {:induction false} TimesMono(k: nat, m: nat, n: nat)
    requires k <= m
    ensures k * n <= m * n
    decreases m
  {
    if k < m {
      TimesMono(k, m - 1, n);
      assert m * n == (m - 1) * n + n;
    }
  }

  ghost predicate IsPrefix(a: seq<nat>, b: seq<nat>) {
    |a| <= |b| && a == b[..|a|]
  }

  /** What the walk hands over in one step: the meta pages, a page, or a page and the rest of its overflow run. */
  function Handed(step: Step): seq<nat> {
    match step
    case Metas(data) => data
    case Append(page) => page
    case AppendRun(page, tail) => page + tail
    case _ => []
  }

  /** Everything the walk hands over, in order. */
  function Output(steps: seq<Step>): seq<nat> {
    if steps == [] then [] else Output(steps[..|steps| - 1]) + Handed(steps[|steps| - 1])
  }

  lemma {:induction false} EmittedIsOutput(env: Env, run: seq<State>, steps: seq<Step>, i: nat)
    requires EnvOk(env) && IsRun(env, run, steps) && i <= |steps|
    ensures run[i].emitted == Output(steps[..i])
    decreases i
  {
    if i > 0 {
      EmittedIsOutput(env, run, steps, i - 1);
      RunInv(env, run, steps, i - 1);
      EmitsHanded(env, run[i - 1], steps[i - 1]);
      hide IsRun, Inv;
      assert steps[..i][..i - 1] == steps[..i - 1] && steps[..i][i - 1] == steps[i - 1];
    }
  }

  lemma EmitsHanded(env: Env, s: State, step: Step)
    requires Inv(env, s) && Enabled(env, s, step)
    ensures Apply(env, s, step).emitted == s.emitted + Handed(step)
  {
    hide Data, Sleeps, Fits;
    if step.AppendRun? { Assoc(s.emitted, step.page, step.tail); }
  }

  /** The file is always the beginning of what the walk handed over, and all of it in the end. */
  lemma OutputInOrder(env: Env, run: seq<State>, steps: seq<Step>, i: nat)
    requires EnvOk(env) && IsRun(env, run, steps) && i <= |steps|
    ensures IsPrefix(run[i].file, Output(steps[..i]))
    ensures run[i].p.PEnd? ==> run[i].w.WDone? && run[i].file == Output(steps[..i])
  {
    RunInv(env, run, steps, i);
    EmittedIsOutput(env, run, steps, i);
    DataIsPrefix(run[i]);
  }

  /** The producer is past the walk: about to hand over the last buffer, to stop the writer, or done. */
  predicate PastWalk(s: State) {
    GoalIs(s, HandOver(true)) || GoalIs(s, Stop) || GoalIs(s, Ended) || s.p.PEnd?
  }

  /** The producer leaves the walk exactly with its `Finish` step, and does not come back. */
  lemma {:induction false} WalkEndsWithFinish(env: Env, run: seq<State>, steps: seq<Step>, i: nat)
    requires IsRun(env, run, steps) && i <= |steps|
    ensures PastWalk(run[i]) <==> Finish in steps[..i]
    ensures !PastWalk(run[i]) ==>
      run[i].p.PSetup? || run[i].p.PFill? || GoalIs(run[i], Started) || GoalIs(run[i], HandOver(false))
    decreases i
  {
    if i > 0 {
      WalkEndsWithFinish(env, run, steps, i - 1);
      PastWalkStep(env, run[i - 1], steps[i - 1]);
      assert steps[..i] == steps[..i - 1] + [steps[i - 1]];
    }
  }

  lemma PastWalkStep(env: Env, s: State, step: Step)
    requires Enabled(env, s, step)
    requires PastWalk(s) || s.p.PSetup? || s.p.PFill? || GoalIs(s, Started) || GoalIs(s, HandOver(false))
    ensures var s' := Apply(env, s, step);
      && (PastWalk(s') <==> PastWalk(s) || step == Finish)
      && (!PastWalk(s') ==> s'.p.PSetup? || s'.p.PFill? || GoalIs(s', Started) || GoalIs(s', HandOver(false)))
  {}

  /** The walk can always go on: with any page or overflow run while there is room, else by handing the buffer over. */
  lemma WalkGoesOn(env: Env, run: seq<State>, steps: seq<Step>, i: nat, page: seq<nat>, tail: seq<nat>)
    requires EnvOk(env) && IsRun(env, run, steps) && i <= |steps| && run[i].p.PFill?
    requires |page| == env.psize && tail != []
    ensures var room := |Get(run[i], run[i].pt).body| + env.psize <= WBuf(env);
      && (room <==> Enabled(env, run[i], Append(page)))
      && (room <==> Enabled(env, run[i], AppendRun(page, tail)))
      && (!room <==> Enabled(env, run[i], HandOverFull))
  {
    RunInv(env, run, steps, i);
    FitsPart(env, run[i]);
    var len := |Get(run[i], run[i].pt).body|;
    WholeIsEnough(env, len);
    if len < WBuf(env) {
      OneMore(env, len);
      WholeIsEnough(env, len + env.psize);
    }
  }

  lemma DataIsPrefix(s: State)
    requires Data(s)
    ensures IsPrefix(s.file, s.emitted)
  {
    var rest :=
      match s.w
      case WStart => Content(Get(s, s.pt))
      case WWrite(r) => r + Get(s, s.wt).tail + Content(Get(s, s.pt))
      case WExit => []
      case WDone => []
      case _ =>
        if s.flag == 0 then Content(Get(s, s.pt))
        else if s.flag == 1 then Content(Get(s, s.wt)) + Content(Get(s, s.pt))
        else [];
    assert s.emitted == s.file + rest;
  }

  /** A wait that ends only because of a signal. */
  predicate Proper(s: State, step: Step) {
    && (step.WakeW? ==> s.w == WWait(true))
    && (step.WakeP? ==> s.p.PWait? && s.p.woken)
  }

  /** No deadlock: until the producer ends, some thread can go on, without spurious wake-ups. */
  lemma NeverStuck(env: Env, run: seq<State>, steps: seq<Step>, i: nat)
    requires EnvOk(env) && IsRun(env, run, steps) && i <= |steps| && !run[i].p.PEnd?
    ensures exists step :: Enabled(env, run[i], step) && Proper(run[i], step)
  {
    RunInv(env, run, steps, i);
    SomeStep(env, run[i]);
  }

  lemma SomeStep(env: Env, s: State)
    requires Inv(env, s) && !s.p.PEnd?
    ensures exists step :: Enabled(env, s, step) && Proper(s, step)
  {
    var step :=
      if s.p.PSetup? then Metas(seq(2 * env.psize, _ => 0))
      else if s.p.PFill? then Finish
      else if s.p.PCheck? then Test
      else if s.w.WCheck? then Look
      else if s.w.WExit? then Leave
      else if s.w.WWrite? then if s.w.rest == [] then Next else WriteSome(1)
      else if s.p.PLock? then Lock
      else if s.p.woken then WakeP
      else if s.w.WStart? then Begin
      else WakeW;
    assert Enabled(env, s, step) && Proper(s, step);
  }
}
