/** The lock-free cancellation protocol of `ConnAbortHandle` (boltconn/src/proxy/context.rs).
    Any number of `cancel` and `fulfill` calls run concurrently on one handle.  Every atomic
    operation, every `JoinHandle::abort` and the publication of the handle list is one step of
    one thread; a run is any interleaving of such steps.  A failed `unwrap` and a reached
    `unreachable!` are states of their own (`CancelPanicked`, `FulfillPanicked`), so that their
    absence is a theorem. */
module AbortHandle {
  // The values of the atomic `state`
  const INIT: nat := 0
  const EARLY_CANCELLED: nat := 1
  const FULFILL_CHANGING: nat := 2
  const READY: nat := 3
  const CANCELLING: nat := 4
  const CANCELLED: nat := 5

  type ThreadId = nat
  type Task = nat

  datatype CancelPc =
    | Loading
    | TryEarly
    | TryCancelling
    | LoadingHandles
    | Aborting(list: seq<Task>, next: nat)
    | Returned
    | CancelPanicked

  datatype FulfillPc =
    | TryChanging
    | TryTakeOver
    | AbortingOwn(done: nat)
    | Storing
    | Publishing
    | Accepted
    | Rejected
    | FulfillPanicked

  datatype Thread = Cancel(cpc: CancelPc) | Fulfill(tasks: seq<Task>, fpc: FulfillPc)

  /** What the threads share: the atomic, the published list, and the log of `abort` calls. */
  datatype Shared = Shared(state: nat, handles: seq<Task>, aborted: seq<Task>)

  datatype System = System(m: Shared, threads: map<ThreadId, Thread>)

  datatype Event =
    | StartCancel(t: ThreadId)
    | StartFulfill(t: ThreadId, tasks: seq<Task>)
    | Advance(t: ThreadId)

  function New(): System { System(Shared(INIT, [], []), map[]) }

  function Placeholder(): System { System(Shared(READY, [], []), map[]) }

  /** One step of `cancel`. */
  function CancelStep(m: Shared, pc: CancelPc): (Shared, CancelPc) {
    match pc
    case Loading =>
      if m.state == INIT then (m, TryEarly)
      else if m.state == READY then (m, TryCancelling)
      else if m.state == FULFILL_CHANGING then (m, Loading)
      else if m.state in {EARLY_CANCELLED, CANCELLING, CANCELLED} then (m, Returned)
      else (m, CancelPanicked)
    case TryEarly =>
      if m.state == INIT then (m.(state := EARLY_CANCELLED), Returned) else (m, Loading)
    case TryCancelling =>
      if m.state == READY then (m.(state := CANCELLING), LoadingHandles) else (m, Returned)
    case LoadingHandles => (m, Aborting(m.handles, 0))
    case Aborting(list, next) =>
      if next < |list| then (m.(aborted := m.aborted + [list[next]]), Aborting(list, next + 1))
      else if m.state == CANCELLING then (m.(state := CANCELLED), Returned)
      else (m, CancelPanicked)
    case Returned => (m, pc)
    case CancelPanicked => (m, pc)
  }

  /** One step of `fulfill(tasks)`. */
  function FulfillStep(m: Shared, tasks: seq<Task>, pc: FulfillPc): (Shared, FulfillPc) {
    match pc
    case TryChanging =>
      if m.state == INIT then (m.(state := FULFILL_CHANGING), Storing) else (m, TryTakeOver)
    case TryTakeOver =>
      if m.state == EARLY_CANCELLED then (m.(state := CANCELLING), AbortingOwn(0)) else (m, Rejected)
    case AbortingOwn(done) =>
      if done < |tasks| then (m.(aborted := m.aborted + [tasks[done]]), AbortingOwn(done + 1))
      else if m.state == CANCELLING then (m.(state := CANCELLED), Accepted)
      else (m, FulfillPanicked)
    case Storing => (m.(handles := tasks), Publishing)
    case Publishing =>
      if m.state == FULFILL_CHANGING then (m.(state := READY), Accepted) else (m, FulfillPanicked)
    case Accepted => (m, pc)
    case Rejected => (m, pc)
    case FulfillPanicked => (m, pc)
  }

  function ThreadStep(m: Shared, th: Thread): (Shared, Thread) {
    match th
    case Cancel(pc) => var (m', pc') := CancelStep(m, pc); (m', Cancel(pc'))
    case Fulfill(tasks, pc) => var (m', pc') := FulfillStep(m, tasks, pc); (m', Fulfill(tasks, pc'))
  }

  /** Events that make no sense (advancing an unknown thread, reusing an id) do nothing. */
  function Apply(s: System, e: Event): System {
    match e
    case StartCancel(t) =>
      if t in s.threads then s else s.(threads := s.threads[t := Cancel(Loading)])
    case StartFulfill(t, tasks) =>
      if t in s.threads then s else s.(threads := s.threads[t := Fulfill(tasks, TryChanging)])
    case Advance(t) =>
      if t !in s.threads then s else
        var (m', th') := ThreadStep(s.m, s.threads[t]);
        System(m', s.threads[t := th'])
  }

  function Run(s: System, es: seq<Event>): System
    decreases |es|
  {
    if es == [] then s else Run(Apply(s, es[0]), es[1..])
  }

  // ---------------------------------------------------------------- roles of a thread

  /** The thread must still move the state out of CANCELLING. */
  predicate OwnsCancelling(th: Thread) {
    match th
    case Cancel(pc) => pc.LoadingHandles? || pc.Aborting?
    case Fulfill(_, pc) => pc.AbortingOwn?
  }

  /** The thread still owes the step to READY. */
  predicate OwesReady(th: Thread) { th.Fulfill? && (th.fpc.Storing? || th.fpc.Publishing?) }

  /** The `fulfill` call whose tasks the handle answers for. */
  predicate TookOver(th: Thread) {
    th.Fulfill? && (th.fpc.Storing? || th.fpc.Publishing? || th.fpc.AbortingOwn? || th.fpc.Accepted?)
  }

  predicate Panicked(th: Thread) {
    match th
    case Cancel(pc) => pc.CancelPanicked?
    case Fulfill(_, pc) => pc.FulfillPanicked?
  }

  predicate HasReturned(th: Thread) {
    match th
    case Cancel(pc) => pc.Returned?
    case Fulfill(_, pc) => pc.Accepted? || pc.Rejected?
  }

  // ---------------------------------------------------------------- the invariant

  /** What one thread at its program point knows about the shared state. */
  predicate ThreadOk(m: Shared, th: Thread) {
    match th
    case Cancel(pc) => (
      match pc
      case Loading => true
      case TryEarly => true
      case TryCancelling => m.state >= READY
      case LoadingHandles => m.state == CANCELLING && m.aborted == []
      case Aborting(list, next) =>
        m.state == CANCELLING && list == m.handles && next <= |list| && m.aborted == list[..next]
      case Returned => m.state in {EARLY_CANCELLED, CANCELLING, CANCELLED}
      case CancelPanicked => false)
    case Fulfill(tasks, pc) => (
      match pc
      case TryChanging => true
      case TryTakeOver => m.state != INIT
      case AbortingOwn(done) =>
        m.state == CANCELLING && done <= |tasks| && m.aborted == tasks[..done]
      case Storing => m.state == FULFILL_CHANGING
      case Publishing => m.state == FULFILL_CHANGING && m.handles == tasks
      case Accepted =>
        && m.state >= READY
        && (m.state < CANCELLED ==> m.handles == tasks)
        && (m.state == CANCELLED ==> m.aborted == tasks)
      case Rejected => m.state >= FULFILL_CHANGING
      case FulfillPanicked => false)
  }

  ghost predicate AllOk(s: System) {
    && s.m.state <= CANCELLED
    && (s.m.state !in {CANCELLING, CANCELLED} ==> s.m.aborted == [])
    && forall t :: t in s.threads ==> ThreadOk(s.m, s.threads[t])
  }

  ghost predicate OneOwnsCancelling(s: System) {
    forall t, u | t in s.threads && u in s.threads ::
      OwnsCancelling(s.threads[t]) && OwnsCancelling(s.threads[u]) ==> t == u
  }

  ghost predicate OneOwesReady(s: System) {
    forall t, u | t in s.threads && u in s.threads ::
      OwesReady(s.threads[t]) && OwesReady(s.threads[u]) ==> t == u
  }

  ghost predicate OneTookOver(s: System) {
    forall t, u | t in s.threads && u in s.threads ::
      TookOver(s.threads[t]) && TookOver(s.threads[u]) ==> t == u
  }

  ghost predicate Unique(s: System) { OneOwnsCancelling(s) && OneTookOver(s) }

  ghost predicate SomeOwnsCancelling(s: System) {
    exists t :: t in s.threads && OwnsCancelling(s.threads[t])
  }

  ghost predicate SomeOwesReady(s: System) {
    exists t :: t in s.threads && OwesReady(s.threads[t])
  }

  ghost predicate SomeTookOver(s: System) {
    exists t :: t in s.threads && TookOver(s.threads[t])
  }

  ghost predicate SomeCancel(s: System) {
    exists t :: t in s.threads && s.threads[t].Cancel?
  }

  /** `isNew` tells a handle made by `new` from a `placeholder`. */
  ghost predicate Inv(s: System, isNew: bool) {
    && AllOk(s)
    && Unique(s)
    && (s.m.state == CANCELLING ==> SomeOwnsCancelling(s))
    && (s.m.state == FULFILL_CHANGING ==> SomeOwesReady(s))
    && (s.m.state in {EARLY_CANCELLED, CANCELLING, CANCELLED} ==> SomeCancel(s))
    && (isNew && s.m.state >= FULFILL_CHANGING ==> SomeTookOver(s))
    && (!isNew ==> s.m.state >= READY && s.m.handles == [] && s.m.aborted == [] && !SomeTookOver(s))
  }

  // ---------------------------------------------------------------- one step keeps it

  lemma AdvanceKeepsAllOk(s: System, t: ThreadId)
    requires AllOk(s) && Unique(s) && t in s.threads
    ensures AllOk(Apply(s, Advance(t)))
  {
    var s' := Apply(s, Advance(t));
    forall u | u in s'.threads
      ensures ThreadOk(s'.m, s'.threads[u])
    {
      assert ThreadOk(s.m, s.threads[t]) && ThreadOk(s.m, s.threads[u]);
      if u != t {
        assert !(OwnsCancelling(s.threads[t]) && OwnsCancelling(s.threads[u]));
        assert !(TookOver(s.threads[t]) && TookOver(s.threads[u]));
      }
    }
  }

  lemma AdvanceKeepsUnique(s: System, t: ThreadId)
    requires AllOk(s) && Unique(s) && t in s.threads
    ensures Unique(Apply(s, Advance(t)))
  {
    var s' := Apply(s, Advance(t));
    forall u | u in s.threads && u != t
      ensures !(OwnsCancelling(s'.threads[t]) && OwnsCancelling(s'.threads[u]))
      ensures !(TookOver(s'.threads[t]) && TookOver(s'.threads[u]))
    {
      assert ThreadOk(s.m, s.threads[t]) && ThreadOk(s.m, s.threads[u]);
    }
  }

  lemma AdvanceKeepsCancellingOwner(s: System, t: ThreadId, isNew: bool)
    requires Inv(s, isNew) && t in s.threads
    requires Apply(s, Advance(t)).m.state == CANCELLING
    ensures SomeOwnsCancelling(Apply(s, Advance(t)))
  {
    var s' := Apply(s, Advance(t));
    assert ThreadOk(s.m, s.threads[t]);
    if s.m.state == CANCELLING {
      var o :| o in s.threads && OwnsCancelling(s.threads[o]);
      assert o in s'.threads && OwnsCancelling(s'.threads[o]);
    } else {
      assert t in s'.threads && OwnsCancelling(s'.threads[t]);
    }
  }

  lemma AdvanceKeepsReadyOwner(s: System, t: ThreadId, isNew: bool)
    requires Inv(s, isNew) && t in s.threads
    requires Apply(s, Advance(t)).m.state == FULFILL_CHANGING
    ensures SomeOwesReady(Apply(s, Advance(t)))
  {
    var s' := Apply(s, Advance(t));
    assert ThreadOk(s.m, s.threads[t]);
    if s.m.state == FULFILL_CHANGING {
      var o :| o in s.threads && OwesReady(s.threads[o]);
      assert o in s'.threads && OwesReady(s'.threads[o]);
    } else {
      assert t in s'.threads && OwesReady(s'.threads[t]);
    }
  }

  lemma AdvanceKeepsCancelCaller(s: System, t: ThreadId, isNew: bool)
    requires Inv(s, isNew) && t in s.threads
    requires Apply(s, Advance(t)).m.state in {EARLY_CANCELLED, CANCELLING, CANCELLED}
    ensures SomeCancel(Apply(s, Advance(t)))
  {
    var s' := Apply(s, Advance(t));
    assert ThreadOk(s.m, s.threads[t]);
    var o := if s.m.state in {EARLY_CANCELLED, CANCELLING, CANCELLED}
      then var o :| o in s.threads && s.threads[o].Cancel?; o else t;
    assert o in s'.threads && s'.threads[o].Cancel?;
  }

  lemma AdvanceKeepsTakeOver(s: System, t: ThreadId, isNew: bool)
    requires Inv(s, isNew) && t in s.threads
    ensures isNew && Apply(s, Advance(t)).m.state >= FULFILL_CHANGING ==> SomeTookOver(Apply(s, Advance(t)))
    ensures !isNew ==> !SomeTookOver(Apply(s, Advance(t)))
  {
    var s' := Apply(s, Advance(t));
    assert ThreadOk(s.m, s.threads[t]);
    if isNew {
      if s.m.state >= FULFILL_CHANGING {
        var o :| o in s.threads && TookOver(s.threads[o]);
        assert o in s'.threads && TookOver(s'.threads[o]);
      } else {
        assert t in s'.threads;
      }
    } else {
      assert !TookOver(s.threads[t]);
      forall u | u in s'.threads ensures !TookOver(s'.threads[u]) {
        assert u in s.threads;
      }
    }
  }

  /** A placeholder has nothing to abort. */
  lemma AdvanceKeepsPlaceholder(s: System, t: ThreadId)
    requires Inv(s, false) && t in s.threads
    ensures var m := Apply(s, Advance(t)).m; m.state >= READY && m.handles == [] && m.aborted == []
  {
    assert ThreadOk(s.m, s.threads[t]);
    assert !TookOver(s.threads[t]);
  }

  lemma StartKeepsInv(s: System, t: ThreadId, th: Thread, isNew: bool)
    requires Inv(s, isNew) && t !in s.threads
    requires th == Cancel(Loading) || (th.Fulfill? && th.fpc == TryChanging)
    ensures Inv(s.(threads := s.threads[t := th]), isNew)
  {
    var s' := s.(threads := s.threads[t := th]);
    assert forall u | u in s.threads :: u in s'.threads && s'.threads[u] == s.threads[u];
    assert AllOk(s');
    assert Unique(s');
    assert SomeOwnsCancelling(s) ==> SomeOwnsCancelling(s');
    assert SomeOwesReady(s) ==> SomeOwesReady(s');
    assert SomeCancel(s) ==> SomeCancel(s');
    assert SomeTookOver(s) <==> SomeTookOver(s');
  }

  lemma EventKeepsInv(s: System, e: Event, isNew: bool)
    requires Inv(s, isNew)
    ensures Inv(Apply(s, e), isNew)
  {
    match e
    case StartCancel(t) => if t !in s.threads { StartKeepsInv(s, t, Cancel(Loading), isNew); }
    case StartFulfill(t, tasks) =>
      if t !in s.threads { StartKeepsInv(s, t, Fulfill(tasks, TryChanging), isNew); }
    case Advance(t) =>
      if t in s.threads {
        AdvanceKeepsAllOk(s, t);
        AdvanceKeepsUnique(s, t);
        var state' := Apply(s, e).m.state;
        if state' == CANCELLING { AdvanceKeepsCancellingOwner(s, t, isNew); }
        if state' == FULFILL_CHANGING { AdvanceKeepsReadyOwner(s, t, isNew); }
        if state' in {EARLY_CANCELLED, CANCELLING, CANCELLED} { AdvanceKeepsCancelCaller(s, t, isNew); }
        AdvanceKeepsTakeOver(s, t, isNew);
        if !isNew { AdvanceKeepsPlaceholder(s, t); }
      }
  }

  lemma {:induction false} RunKeepsInv(s: System, es: seq<Event>, isNew: bool)
    requires Inv(s, isNew)
    ensures Inv(Run(s, es), isNew)
    decreases |es|
  {
    if es != [] {
      EventKeepsInv(s, es[0], isNew);
      RunKeepsInv(Apply(s, es[0]), es[1..], isNew);
    }
  }

  /** The two ways a handle is made. */
  ghost predicate Initial(s: System) { s == New() || s == Placeholder() }

  lemma Reachable(init: System, es: seq<Event>)
    requires Initial(init)
    ensures Inv(Run(init, es), init == New())
  {
    RunKeepsInv(init, es, init == New());
  }

  // ---------------------------------------------------------------- theorems

  /** No `compare_exchange(..).unwrap()` ever fails and `unreachable!` is unreachable; CANCELLING
      and FULFILL_CHANGING each have exactly one owning thread, and no other state has one. */
  lemma NoPanicAndSingleOwner(init: System, es: seq<Event>)
    requires Initial(init)
    ensures var s := Run(init, es);
            && (forall t :: t in s.threads ==> !Panicked(s.threads[t]))
            && (forall t :: t in s.threads ==> s.threads[t] != Cancel(CancelPanicked) && (s.threads[t].Fulfill? ==> !s.threads[t].fpc.FulfillPanicked?))
            && (s.m.state == CANCELLING <==> SomeOwnsCancelling(s))
            && (s.m.state == FULFILL_CHANGING <==> SomeOwesReady(s))
            && OneOwnsCancelling(s)
            && OneOwesReady(s)
  {
    Reachable(init, es);
    var s := Run(init, es);
    forall t | t in s.threads
      ensures !Panicked(s.threads[t])
      ensures OwnsCancelling(s.threads[t]) ==> s.m.state == CANCELLING
      ensures OwesReady(s.threads[t]) ==> s.m.state == FULFILL_CHANGING && TookOver(s.threads[t])
    {
      assert ThreadOk(s.m, s.threads[t]);
    }
  }

  lemma {:induction false} StateNeverDecreases(init: System, es: seq<Event>, more: seq<Event>)
    requires Initial(init)
    ensures Run(init, es).m.state <= Run(init, es + more).m.state
    decreases |more|
  {
    if more == [] {
      assert es + more == es;
    } else {
      var last := more[0];
      assert es + more == (es + [last]) + more[1..];
      RunSnoc(init, es, last);
      Reachable(init, es);
      var s := Run(init, es);
      if last.Advance? && last.t in s.threads { assert ThreadOk(s.m, s.threads[last.t]); }
      StateNeverDecreases(init, es + [last], more[1..]);
    }
  }

  lemma {:induction false} RunSnoc(s: System, es: seq<Event>, e: Event)
    ensures Run(s, es + [e]) == Apply(Run(s, es), e)
    decreases |es|
  {
    if es == [] {
      assert Run(Apply(s, e), []) == Apply(s, e);
    } else {
      assert (es + [e])[1..] == es[1..] + [e];
      RunSnoc(Apply(s, es[0]), es[1..], e);
    }
  }

  /** The event starts a call as thread `t`. */
  predicate Starts(e: Event, t: ThreadId) { (e.StartCancel? || e.StartFulfill?) && e.t == t }

  /** Event `i` is the one that started thread `t`. */
  predicate StartedAt(es: seq<Event>, t: ThreadId, i: nat) {
    i < |es| && Starts(es[i], t) && forall j :: 0 <= j < i ==> !Starts(es[j], t)
  }

  /** The thread runs the call that the event made, with the tasks handed over in it. */
  predicate IsCallOf(th: Thread, e: Event) {
    match e
    case StartCancel(_) => th.Cancel?
    case StartFulfill(_, tasks) => th.Fulfill? && th.tasks == tasks
    case Advance(_) => false
  }

  lemma CallStays(s: System, e: Event, t: ThreadId, start: Event)
    requires t in s.threads && IsCallOf(s.threads[t], start)
    ensures t in Apply(s, e).threads && IsCallOf(Apply(s, e).threads[t], start)
  {
  }

  /** A thread is the call that its first start event made; and there is no other thread. */
  lemma {:induction false} ThreadIsItsCall(init: System, es: seq<Event>, t: ThreadId)
    requires Initial(init)
    ensures t in Run(init, es).threads <==> exists i: nat :: StartedAt(es, t, i)
    ensures forall i: nat :: StartedAt(es, t, i) ==> t in Run(init, es).threads && IsCallOf(Run(init, es).threads[t], es[i])
  {
    if es != [] {
      var n := |es| - 1;
      var before := es[..n];
      var s := Run(init, before);
      ThreadIsItsCall(init, before, t);
      SomeFirstStart(before, t);
      assert es == before + [es[n]];
      RunSnoc(init, before, es[n]);
      forall i: nat | StartedAt(es, t, i) ensures t in Run(init, es).threads && IsCallOf(Run(init, es).threads[t], es[i]) {
        if i < n {
          assert StartedAt(before, t, i);
          CallStays(s, es[n], t, es[i]);
        } else {
          assert t !in s.threads;
        }
      }
      if t in s.threads {
        var i :| StartedAt(before, t, i);
        assert StartedAt(es, t, i);
      } else if t in Run(init, es).threads {
        assert StartedAt(es, t, n);
      }
    }
  }

  lemma {:induction false} SomeFirstStart(es: seq<Event>, t: ThreadId)
    ensures (exists i :: StartedAt(es, t, i)) <==> exists j :: 0 <= j < |es| && Starts(es[j], t)
  {
    if es != [] {
      var n := |es| - 1;
      SomeFirstStart(es[..n], t);
      if i :| StartedAt(es[..n], t, i) {
        assert StartedAt(es, t, i);
      } else if Starts(es[n], t) {
        assert StartedAt(es, t, n);
      }
    }
  }

  /** A call starts at its first instruction, whatever is under way. */
  lemma CallsStartAtTheTop(init: System, es: seq<Event>, t: ThreadId, tasks: seq<Task>)
    requires Initial(init) && t !in Run(init, es).threads
    ensures var s := Run(init, es + [StartCancel(t)]);
            t in s.threads && s.threads[t] == Cancel(Loading) && s.m == Run(init, es).m
    ensures var s := Run(init, es + [StartFulfill(t, tasks)]);
            t in s.threads && s.threads[t] == Fulfill(tasks, TryChanging) && s.m == Run(init, es).m
  {
    RunSnoc(init, es, StartCancel(t));
    RunSnoc(init, es, StartFulfill(t, tasks));
  }

  /** No cancellation is lost.  Once some `cancel` on a handle made by `new` has returned, a
      `fulfill(tasks)` was accepted and nobody is busy cancelling, the tasks handed to that call
      have been aborted, each exactly once and in list order, and nothing else has, whatever the
      interleaving was and whatever other calls are still under way. */
  lemma NoCancellationLost(es: seq<Event>, c: ThreadId, f: ThreadId, i: nat)
    requires StartedAt(es, f, i) && es[i].StartFulfill?
    requires var s := Run(New(), es);
             && c in s.threads && s.threads[c] == Cancel(Returned)
             && f in s.threads && s.threads[f].Fulfill? && s.threads[f].fpc.Accepted?
             && !SomeOwnsCancelling(s)
    ensures Run(New(), es).m.aborted == es[i].tasks
    ensures Run(New(), es).m.state == CANCELLED
  {
    Reachable(New(), es);
    ThreadIsItsCall(New(), es, f);
    var s := Run(New(), es);
    assert ThreadOk(s.m, s.threads[c]) && ThreadOk(s.m, s.threads[f]);
  }

  /** In particular once all calls have returned. */
  lemma AllReturnedNothingLost(es: seq<Event>, c: ThreadId, f: ThreadId, i: nat)
    requires StartedAt(es, f, i) && es[i].StartFulfill?
    requires var s := Run(New(), es);
             && (forall t :: t in s.threads ==> HasReturned(s.threads[t]))
             && c in s.threads && s.threads[c].Cancel?
             && f in s.threads && s.threads[f].Fulfill? && s.threads[f].fpc.Accepted?
    ensures Run(New(), es).m.aborted == es[i].tasks
  {
    assert HasReturned(Run(New(), es).threads[c]);
    assert !SomeOwnsCancelling(Run(New(), es));
    NoCancellationLost(es, c, f, i);
  }

  /** At no moment of any run is a task aborted unless some `cancel` was called, and only tasks of
      the one accepted `fulfill` ever are: the log is always a prefix of its list. */
  lemma OnlyCancelledTasksAbort(init: System, es: seq<Event>)
    requires Initial(init)
    ensures var s := Run(init, es);
            && (s.m.aborted != [] ==> SomeCancel(s) && SomeTookOver(s))
            && (forall f :: f in s.threads && TookOver(s.threads[f]) ==> s.m.aborted <= s.threads[f].tasks)
            && (forall f, i: nat :: StartedAt(es, f, i) && f in s.threads && TookOver(s.threads[f]) ==>
                  es[i].StartFulfill? && s.m.aborted <= es[i].tasks)
  {
    Reachable(init, es);
    var s := Run(init, es);
    forall f, i: nat | StartedAt(es, f, i) && f in s.threads && TookOver(s.threads[f])
      ensures es[i].StartFulfill? && s.threads[f].tasks == es[i].tasks
    {
      ThreadIsItsCall(init, es, f);
    }
    forall f | f in s.threads && TookOver(s.threads[f])
      ensures s.m.aborted <= s.threads[f].tasks
    {
      assert ThreadOk(s.m, s.threads[f]);
      if s.m.state == CANCELLING {
        var o :| o in s.threads && OwnsCancelling(s.threads[o]);
        assert ThreadOk(s.m, s.threads[o]);
      }
    }
  }

  /** At most one `fulfill` is ever accepted; on a handle from `new` whose calls have all returned
      one is accepted exactly when a `fulfill` was called, and on a placeholder none ever is. */
  lemma ExactlyOneFulfillAccepted(init: System, es: seq<Event>)
    requires Initial(init)
    ensures var s := Run(init, es);
            && OneTookOver(s)
            && (init == Placeholder() ==> !SomeTookOver(s))
            && (init == New() && (forall t :: t in s.threads ==> HasReturned(s.threads[t])) ==>
                  (SomeTookOver(s) <==> exists f :: f in s.threads && s.threads[f].Fulfill?))
  {
    Reachable(init, es);
    var s := Run(init, es);
    if init == New() && forall t :: t in s.threads ==> HasReturned(s.threads[t]) {
      forall f | f in s.threads && s.threads[f].Fulfill?
        ensures SomeTookOver(s)
      {
        assert ThreadOk(s.m, s.threads[f]) && HasReturned(s.threads[f]);
      }
    }
  }

  // ---------------------------------------------------------------- progress

  /** The thread re-reads the state without having learnt anything new. */
  predicate Spins(s: System, t: ThreadId) {
    t in s.threads && s.threads[t] == Cancel(Loading) && s.m.state == FULFILL_CHANGING
  }

  /** A `cancel` goes back to its load only because the state left INIT since it last looked, or
      while one `fulfill` still owes its READY step. */
  lemma CancelRereadsOnlyAfterProgress(init: System, es: seq<Event>, t: ThreadId)
    requires Initial(init)
    requires var s := Run(init, es);
             t in s.threads && Apply(s, Advance(t)).threads[t] == Cancel(Loading)
    ensures var s := Run(init, es);
            || (s.threads[t] == Cancel(TryEarly) && s.m.state > INIT)
            || (Spins(s, t) && SomeOwesReady(s))
  {
    NoPanicAndSingleOwner(init, es);
  }

  /** Two steps of the `fulfill` a spinning `cancel` waits for end the spin, whatever else
      happened before. */
  lemma SpinEndsAfterTwoSteps(init: System, es: seq<Event>, u: ThreadId)
    requires Initial(init)
    requires u in Run(init, es).threads && OwesReady(Run(init, es).threads[u])
    ensures Apply(Apply(Run(init, es), Advance(u)), Advance(u)).m.state == READY
            || Apply(Run(init, es), Advance(u)).m.state == READY
  {
    Reachable(init, es);
    var s := Run(init, es);
    assert ThreadOk(s.m, s.threads[u]);
  }

  /** An upper bound on the steps a thread still takes, spins apart, when no list is longer than `cap`. */
  function Budget(m: Shared, th: Thread, cap: nat): nat {
    match th
    case Cancel(pc) => (
      match pc
      case Loading => if m.state == INIT then cap + 6 else cap + 4
      case TryEarly => cap + 5
      case TryCancelling => cap + 3
      case LoadingHandles => cap + 2
      case Aborting(list, next) => if next <= |list| then |list| - next + 1 else 0
      case Returned => 0
      case CancelPanicked => 0)
    case Fulfill(tasks, pc) => (
      match pc
      case TryChanging => |tasks| + 3
      case TryTakeOver => |tasks| + 2
      case AbortingOwn(done) => if done <= |tasks| then |tasks| - done + 1 else 0
      case Storing => 2
      case Publishing => 1
      case Accepted => 0
      case Rejected => 0
      case FulfillPanicked => 0)
  }

  predicate Unfinished(s: System, t: ThreadId) {
    t in s.threads && !HasReturned(s.threads[t]) && !Panicked(s.threads[t])
  }

  /** The steps thread `t` takes during a run, not counting spins. */
  function Work(s: System, es: seq<Event>, t: ThreadId): nat
    decreases |es|
  {
    if es == [] then 0 else
      (if es[0] == Advance(t) && Unfinished(s, t) && !Spins(s, t) then 1 else 0)
      + Work(Apply(s, es[0]), es[1..], t)
  }

  lemma CancelMovesOn(m: Shared, pc: CancelPc)
    ensures CancelStep(m, pc).1 == pc <==> pc.Returned? || pc.CancelPanicked? || (pc == Loading && m.state == FULFILL_CHANGING)
  {
  }

  lemma FulfillMovesOn(m: Shared, tasks: seq<Task>, pc: FulfillPc)
    ensures FulfillStep(m, tasks, pc).1 == pc <==> pc.Accepted? || pc.Rejected? || pc.FulfillPanicked?
  {
  }

  lemma OneStepOfWork(s: System, e: Event, t: ThreadId)
    ensures Work(s, [e], t) == if e == Advance(t) && Unfinished(s, t) && !Spins(s, t) then 1 else 0
  {
    assert [e][1..] == [];
  }

  /** What is counted as work: exactly the steps that move the thread on. */
  lemma WorkIsMovingOn(s: System, t: ThreadId)
    requires t in s.threads
    ensures Work(s, [Advance(t)], t) == if Apply(s, Advance(t)).threads[t] != s.threads[t] then 1 else 0
  {
    OneStepOfWork(s, Advance(t), t);
    match s.threads[t]
    case Cancel(pc) => CancelMovesOn(s.m, pc);
    case Fulfill(tasks, pc) => FulfillMovesOn(s.m, tasks, pc);
  }

  lemma {:induction false} WorkAdds(s: System, es: seq<Event>, more: seq<Event>, t: ThreadId)
    ensures Work(s, es + more, t) == Work(s, es, t) + Work(Run(s, es), more, t)
    decreases |es|
  {
    if es == [] {
      assert es + more == more;
    } else {
      assert (es + more)[1..] == es[1..] + more;
      WorkAdds(Apply(s, es[0]), es[1..], more, t);
    }
  }

  ghost predicate ListsWithin(s: System, es: seq<Event>, cap: nat) {
    && |s.m.handles| <= cap
    && (forall t :: t in s.threads && s.threads[t].Fulfill? ==> |s.threads[t].tasks| <= cap)
    && (forall i :: 0 <= i < |es| && es[i].StartFulfill? ==> |es[i].tasks| <= cap)
  }

  /** Every step but a spin uses up budget, and no other thread's step gives any back. */
  lemma EventSpendsBudget(s: System, e: Event, t: ThreadId, cap: nat, isNew: bool)
    requires Inv(s, isNew) && t in s.threads && |s.m.handles| <= cap
    ensures var s' := Apply(s, e);
            && t in s'.threads
            && Budget(s'.m, s'.threads[t], cap)
               + (if e == Advance(t) && Unfinished(s, t) && !Spins(s, t) then 1 else 0)
               <= Budget(s.m, s.threads[t], cap)
  {
    assert ThreadOk(s.m, s.threads[t]);
    if e.Advance? && e.t in s.threads { assert ThreadOk(s.m, s.threads[e.t]); }
  }

  lemma ListsStayWithin(s: System, es: seq<Event>, cap: nat, isNew: bool)
    requires Inv(s, isNew) && es != [] && ListsWithin(s, es, cap)
    ensures ListsWithin(Apply(s, es[0]), es[1..], cap)
  {
    if es[0].Advance? && es[0].t in s.threads { assert ThreadOk(s.m, s.threads[es[0].t]); }
    assert forall i :: 0 <= i < |es[1..]| ==> es[1..][i] == es[i + 1];
  }

  /** Spins apart, `cancel` and `fulfill` are wait-free: from any reachable state on, a call takes
      a bounded number of steps however the others are scheduled. */
  lemma {:induction false} WorkIsBounded(s: System, es: seq<Event>, t: ThreadId, cap: nat, isNew: bool)
    requires Inv(s, isNew) && t in s.threads && ListsWithin(s, es, cap)
    ensures Work(s, es, t) <= Budget(s.m, s.threads[t], cap) <= cap + 6
    decreases |es|
  {
    if es != [] {
      EventKeepsInv(s, es[0], isNew);
      EventSpendsBudget(s, es[0], t, cap, isNew);
      var s' := Apply(s, es[0]);
      ListsStayWithin(s, es, cap, isNew);
      WorkIsBounded(s', es[1..], t, cap, isNew);
    } else {
      assert ThreadOk(s.m, s.threads[t]);
    }
  }
}
