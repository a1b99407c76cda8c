/** The lock-free protocol-config cache of pkg/model/protocol_config.go, as atomic `Load`, `LoadOrStore`, `Store` and
    `Delete` steps that any number of threads interleave. */
module ConfigCache {
  import opened Basics

  datatype Key = Key(device: string, protocol: string)

  /** A `*ProtocolConfig`. Two allocations are never the same pointer, so each carries the call that made it. */
  datatype Config = Config(madeBy: nat, name: string, properties: map<string, string>)

  type Cache = map<Key, Config>

  datatype Op =
    | Resolve(key: Key, properties: map<string, string>)
    | Update(key: Key, properties: map<string, string>)
    | Remove(key: Key)

  /** The config a call allocates. */
  function Made(call: nat, op: Op): Config
    requires !op.Remove?
  {
    Config(call, op.key.protocol, op.properties)
  }

  // ----- the sequential specification -----

  /** One operation on its own: Resolve keeps an existing config, Update replaces it, Remove drops it. */
  function Apply(cache: Cache, call: nat, op: Op): (Cache, Option<Config>) {
    match op
    case Resolve(key, _) =>
      if key in cache then (cache, Some(cache[key])) else (cache[key := Made(call, op)], Some(Made(call, op)))
    case Update(key, _) => (cache[key := Made(call, op)], Some(Made(call, op)))
    case Remove(key) => (cache - {key}, None)
  }

  /** An operation with the result it returned. */
  datatype Entry = Entry(call: nat, op: Op, result: Option<Config>)

  /** The cache after a sequence of operations, one at a time. */
  function Replay(log: seq<Entry>): Cache {
    if log == [] then map[]
    else Apply(Replay(log[..|log| - 1]), log[|log| - 1].call, log[|log| - 1].op).0
  }

  /** Every entry's result is what the sequential specification returns at its place. */
  predicate Legal(log: seq<Entry>) {
    forall n {:trigger log[n]} :: 0 <= n < |log| ==> log[n].result == Apply(Replay(log[..n]), log[n].call, log[n].op).1
  }

  // ----- the concurrent program -----

  /** Where a call stands. */
  datatype Pc =
    | Started                           // before the first access to the map
    | Missed                            // Resolve: Load found nothing, a new config has been built
    | Finished(result: Option<Config>)  // before the return

  datatype Active = Active(call: nat, op: Op, pc: Pc)

  /** Calls and returns in real time; `at` is the number of operations that had taken effect. */
  datatype Event =
    | Called(call: nat, op: Op, at: nat)
    | Returned(call: nat, result: Option<Config>, at: nat)

  datatype State = State(cache: Cache, threads: map<nat, Active>, nextCall: nat,
                         events: seq<Event>, log: seq<Entry>)

  const INITIAL := State(map[], map[], 0, [], [])

  datatype Step =
    | Call(thread: nat, op: Op)
    | Load(thread: nat)
    | LoadOrStore(thread: nat)
    | Store(thread: nat)
    | Delete(thread: nat)
    | Return(thread: nat)

  predicate Enabled(s: State, step: Step) {
    match step
    case Call(t, _) => t !in s.threads
    case Load(t) => t in s.threads && s.threads[t].op.Resolve? && s.threads[t].pc.Started?
    case LoadOrStore(t) => t in s.threads && s.threads[t].op.Resolve? && s.threads[t].pc.Missed?
    case Store(t) => t in s.threads && s.threads[t].op.Update? && s.threads[t].pc.Started?
    case Delete(t) => t in s.threads && s.threads[t].op.Remove? && s.threads[t].pc.Started?
    case Return(t) => t in s.threads && s.threads[t].pc.Finished?
  }

  /** The thread's operation takes effect now, with this result. */
  function Finish(s: State, t: nat, cache: Cache, result: Option<Config>): State
    requires t in s.threads
  {
    var a := s.threads[t];
    s.(cache := cache, threads := s.threads[t := a.(pc := Finished(result))],
       log := s.log + [Entry(a.call, a.op, result)])
  }

  function Do(s: State, step: Step): State
    requires Enabled(s, step)
  {
    match step
    case Call(t, op) =>
      s.(threads := s.threads[t := Active(s.nextCall, op, Started)], nextCall := s.nextCall + 1,
         events := s.events + [Called(s.nextCall, op, |s.log|)])
    case Load(t) =>
      var a := s.threads[t];
      if a.op.key in s.cache then Finish(s, t, s.cache, Some(s.cache[a.op.key]))
      else s.(threads := s.threads[t := a.(pc := Missed)])
    case LoadOrStore(t) =>
      var a := s.threads[t];
      if a.op.key in s.cache then Finish(s, t, s.cache, Some(s.cache[a.op.key]))
      else Finish(s, t, s.cache[a.op.key := Made(a.call, a.op)], Some(Made(a.call, a.op)))
    case Store(t) =>
      var a := s.threads[t];
      Finish(s, t, s.cache[a.op.key := Made(a.call, a.op)], Some(Made(a.call, a.op)))
    case Delete(t) =>
      Finish(s, t, s.cache - {s.threads[t].op.key}, None)
    case Return(t) =>
      s.(threads := s.threads - {t},
         events := s.events + [Returned(s.threads[t].call, s.threads[t].pc.result, |s.log|)])
  }

  /** The state after a run of steps; None if some step was not possible. */
  function Run(steps: seq<Step>): Option<State> {
    if steps == [] then Some(INITIAL)
    else
      match Run(steps[..|steps| - 1])
      case Some(s) => if Enabled(s, steps[|steps| - 1]) then Some(Do(s, steps[|steps| - 1])) else None
      case None => None
  }

  // ----- the invariant -----

  /** The cache is what the effects so far amount to, and every effect had its sequential result. */
  predicate CacheInv(s: State) {
    Legal(s.log) && s.cache == Replay(s.log)
  }

  /** Calls are numbered; each takes effect at most once. */
  predicate LogInv(s: State) {
    && (forall n {:trigger s.log[n]} :: 0 <= n < |s.log| ==> s.log[n].call < s.nextCall)
    && (forall m, n {:trigger s.log[m], s.log[n]} :: 0 <= m < n < |s.log| ==> s.log[m].call != s.log[n].call)
  }

  ghost predicate InLog(s: State, call: nat, op: Op, result: Option<Config>) {
    exists n {:trigger s.log[n]} :: 0 <= n < |s.log| && s.log[n] == Entry(call, op, result)
  }

  predicate NotInLog(s: State, call: nat) {
    forall n {:trigger s.log[n]} :: 0 <= n < |s.log| ==> s.log[n].call != call
  }

  /** A running call has taken effect exactly if it is finished, and then with the result it will return. */
  ghost predicate ThreadInv(s: State) {
    && (forall t :: t in s.threads ==> s.threads[t].call < s.nextCall)
    && (forall t, u :: t in s.threads && u in s.threads && t != u ==> s.threads[t].call != s.threads[u].call)
    && (forall t :: t in s.threads ==>
          if s.threads[t].pc.Finished? then InLog(s, s.threads[t].call, s.threads[t].op, s.threads[t].pc.result)
          else NotInLog(s, s.threads[t].call))
    && (forall t :: t in s.threads ==> WasCalled(s, s.threads[t].call, s.threads[t].op))
  }

  ghost predicate WasCalled(s: State, call: nat, op: Op) {
    exists i {:trigger s.events[i]} :: 0 <= i < |s.events| && s.events[i].Called?
                                        && s.events[i].call == call && s.events[i].op == op
  }

  /** The marks of the events count effects so far, so they never decrease. */
  ghost predicate EventOrder(s: State) {
    && (forall i {:trigger s.events[i]} :: 0 <= i < |s.events| ==>
          s.events[i].at <= |s.log| && s.events[i].call < s.nextCall)
    && (forall i, j {:trigger s.events[i], s.events[j]} :: 0 <= i <= j < |s.events| ==>
          s.events[i].at <= s.events[j].at)
  }

  /** A call takes effect after its Called and before its Returned event, which carry its operation and result. */
  ghost predicate EventLog(s: State) {
    && (forall i, n {:trigger s.events[i], s.log[n]} ::
          0 <= i < |s.events| && 0 <= n < |s.log| && s.events[i].call == s.log[n].call ==>
            if s.events[i].Called? then s.events[i].at <= n && s.events[i].op == s.log[n].op
            else n < s.events[i].at && s.events[i].result == s.log[n].result)
    && (forall i {:trigger s.events[i]} :: 0 <= i < |s.events| && s.events[i].Returned? ==>
          exists n {:trigger s.log[n]} :: 0 <= n < |s.log| && s.log[n].call == s.events[i].call)
  }

  /** A running call has been called, with its operation, and has not returned. */
  ghost predicate EventThreads(s: State) {
    forall i, t {:trigger s.events[i], s.threads[t]} ::
      0 <= i < |s.events| && t in s.threads && s.events[i].call == s.threads[t].call ==>
        s.events[i].Called? && s.events[i].op == s.threads[t].op
  }

  /** Every effect belongs to a call. */
  ghost predicate LogCalled(s: State) {
    forall n :: 0 <= n < |s.log| ==> CalledBefore(s, n)
  }

  /** The n-th effect is that of an operation called before it, with that operation. */
  ghost predicate CalledBefore(s: State, n: nat)
    requires n < |s.log|
  {
    exists i {:trigger s.events[i]} :: 0 <= i < |s.events| && s.events[i].Called?
      && s.events[i].call == s.log[n].call && s.events[i].op == s.log[n].op && s.events[i].at <= n
  }

  ghost predicate EventInv(s: State) {
    EventOrder(s) && EventLog(s) && EventThreads(s) && LogCalled(s)
  }

  ghost predicate Inv(s: State) {
    CacheInv(s) && LogInv(s) && ThreadInv(s) && EventInv(s)
  }

  lemma FinishKeepsCacheInv(s: State, t: nat, cache: Cache, result: Option<Config>)
    requires CacheInv(s) && t in s.threads
    requires Apply(s.cache, s.threads[t].call, s.threads[t].op) == (cache, result)
    ensures CacheInv(Finish(s, t, cache, result))
  {
    var s' := Finish(s, t, cache, result);
    assert s'.log[..|s.log|] == s.log;
    forall n {:trigger s'.log[n]} | 0 <= n < |s'.log|
      ensures s'.log[n].result == Apply(Replay(s'.log[..n]), s'.log[n].call, s'.log[n].op).1
    {
      if n < |s.log| { assert s'.log[..n] == s.log[..n] && s'.log[n] == s.log[n]; }
    }
  }

  lemma FinishKeepsThreadInv(s: State, t: nat, cache: Cache, result: Option<Config>)
    requires LogInv(s) && ThreadInv(s) && t in s.threads && !s.threads[t].pc.Finished?
    ensures LogInv(Finish(s, t, cache, result)) && ThreadInv(Finish(s, t, cache, result))
  {
    var s' := Finish(s, t, cache, result);
    var a := s.threads[t];
    assert s'.log[|s.log|] == Entry(a.call, a.op, result);
    forall u | u in s'.threads
      ensures if s'.threads[u].pc.Finished?
              then InLog(s', s'.threads[u].call, s'.threads[u].op, s'.threads[u].pc.result)
              else NotInLog(s', s'.threads[u].call)
      ensures WasCalled(s', s'.threads[u].call, s'.threads[u].op)
    {
      assert WasCalled(s, s.threads[u].call, s.threads[u].op);
      if u != t && s.threads[u].pc.Finished? {
        var n :| 0 <= n < |s.log| && s.log[n] == Entry(s.threads[u].call, s.threads[u].op, s.threads[u].pc.result);
        assert s'.log[n] == s.log[n];
      }
    }
  }

  lemma FinishKeepsEventInv(s: State, t: nat, cache: Cache, result: Option<Config>)
    requires LogInv(s) && ThreadInv(s) && EventInv(s) && t in s.threads && !s.threads[t].pc.Finished?
    ensures EventInv(Finish(s, t, cache, result))
  {
    hide EventLog, LogInv, ThreadInv, LogCalled;
    FinishKeepsEventLog(s, t, cache, result);
    FinishKeepsLogCalled(s, t, cache, result);
  }

  /** Effects stay called when events are only added. */
  lemma StaysCalled(s: State, s': State, n: nat)
    requires n < |s.log| && CalledBefore(s, n)
    requires s.log <= s'.log && s.events <= s'.events
    ensures CalledBefore(s', n)
  {
    var i :| 0 <= i < |s.events| && s.events[i].Called?
             && s.events[i].call == s.log[n].call && s.events[i].op == s.log[n].op && s.events[i].at <= n;
    assert s'.events[i] == s.events[i] && s'.log[n] == s.log[n];
  }

  lemma FinishKeepsLogCalled(s: State, t: nat, cache: Cache, result: Option<Config>)
    requires ThreadInv(s) && EventOrder(s) && LogCalled(s) && t in s.threads
    ensures LogCalled(Finish(s, t, cache, result))
  {
    hide InLog, NotInLog;
    var s' := Finish(s, t, cache, result);
    var a := s.threads[t];
    forall n | 0 <= n < |s'.log| ensures CalledBefore(s', n) {
      if n < |s.log| {
        assert s'.log[n] == s.log[n];
        StaysCalled(s, s', n);
      } else {
        assert WasCalled(s, a.call, a.op);
        var i :| 0 <= i < |s.events| && s.events[i].Called? && s.events[i].call == a.call && s.events[i].op == a.op;
        assert s'.events[i].at <= |s.log|;
      }
    }
  }

  lemma EventsKeepLogCalled(s: State, s': State)
    requires LogCalled(s) && s'.log == s.log && s.events <= s'.events
    ensures LogCalled(s')
  {
    forall n | 0 <= n < |s'.log| ensures CalledBefore(s', n) {
      assert s'.log[n] == s.log[n];
      StaysCalled(s, s', n);
    }
  }

  lemma FinishKeepsEventLog(s: State, t: nat, cache: Cache, result: Option<Config>)
    requires ThreadInv(s) && EventInv(s) && t in s.threads && !s.threads[t].pc.Finished?
    ensures EventLog(Finish(s, t, cache, result))
  {
    hide InLog, WasCalled;
    var s' := Finish(s, t, cache, result);
    forall i {:trigger s'.events[i]} | 0 <= i < |s'.events| && s'.events[i].Returned?
      ensures exists n {:trigger s'.log[n]} :: 0 <= n < |s'.log| && s'.log[n].call == s'.events[i].call
    {
      assert s.events[i] == s'.events[i];
      var n :| 0 <= n < |s.log| && s.log[n].call == s.events[i].call;
      assert s'.log[n] == s.log[n];
    }
  }

  lemma FinishKeepsInv(s: State, t: nat, cache: Cache, result: Option<Config>)
    requires Inv(s) && t in s.threads && !s.threads[t].pc.Finished?
    requires Apply(s.cache, s.threads[t].call, s.threads[t].op) == (cache, result)
    ensures Inv(Finish(s, t, cache, result))
  {
    FinishKeepsCacheInv(s, t, cache, result);
    FinishKeepsThreadInv(s, t, cache, result);
    FinishKeepsEventInv(s, t, cache, result);
  }

  lemma CallKeepsThreadInv(s: State, t: nat, op: Op)
    requires LogInv(s) && ThreadInv(s) && Enabled(s, Call(t, op))
    ensures ThreadInv(Do(s, Call(t, op)))
  {
    var s' := Do(s, Call(t, op));
    assert s'.events[|s.events|] == Called(s.nextCall, op, |s.log|);
    forall u | u in s.threads
      ensures WasCalled(s', s.threads[u].call, s.threads[u].op)
      ensures s.threads[u].pc.Finished? ==> InLog(s', s.threads[u].call, s.threads[u].op, s.threads[u].pc.result)
      ensures !s.threads[u].pc.Finished? ==> NotInLog(s', s.threads[u].call)
    {
      KeepsFacts(s, s', u);
    }
    assert NotInLog(s', s.nextCall);
    assert WasCalled(s', s.nextCall, op);
  }

  /** Facts about a thread survive when the log stays and events are only added. */
  lemma KeepsFacts(s: State, s': State, u: nat)
    requires ThreadInv(s) && u in s.threads
    requires s'.log == s.log && s.events <= s'.events
    ensures WasCalled(s', s.threads[u].call, s.threads[u].op)
    ensures s.threads[u].pc.Finished? ==> InLog(s', s.threads[u].call, s.threads[u].op, s.threads[u].pc.result)
    ensures !s.threads[u].pc.Finished? ==> NotInLog(s', s.threads[u].call)
  {
    assert WasCalled(s, s.threads[u].call, s.threads[u].op);
    var i :| 0 <= i < |s.events| && s.events[i].Called?
             && s.events[i].call == s.threads[u].call && s.events[i].op == s.threads[u].op;
    assert s'.events[i] == s.events[i];
    if s.threads[u].pc.Finished? {
      var n :| 0 <= n < |s.log| && s.log[n] == Entry(s.threads[u].call, s.threads[u].op, s.threads[u].pc.result);
      assert s'.log[n] == s.log[n];
    }
  }

  lemma CallKeepsEventInv(s: State, t: nat, op: Op)
    requires LogInv(s) && ThreadInv(s) && EventInv(s) && Enabled(s, Call(t, op))
    ensures EventInv(Do(s, Call(t, op)))
  {
    hide InLog, NotInLog, WasCalled, LogCalled;
    var s' := Do(s, Call(t, op));
    EventsKeepLogCalled(s, s');
    assert s'.events[|s.events|] == Called(s.nextCall, op, |s.log|);
    assert forall i {:trigger s'.events[i]} :: 0 <= i < |s.events| ==> s'.events[i] == s.events[i];
  }

  lemma MissKeepsThreadInv(s: State, t: nat)
    requires ThreadInv(s) && t in s.threads && s.threads[t].pc.Started?
    ensures ThreadInv(s.(threads := s.threads[t := s.threads[t].(pc := Missed)]))
  {
    var s' := s.(threads := s.threads[t := s.threads[t].(pc := Missed)]);
    forall u | u in s.threads
      ensures WasCalled(s', s.threads[u].call, s.threads[u].op)
      ensures s.threads[u].pc.Finished? ==> InLog(s', s.threads[u].call, s.threads[u].op, s.threads[u].pc.result)
      ensures !s.threads[u].pc.Finished? ==> NotInLog(s', s.threads[u].call)
    {
      KeepsFacts(s, s', u);
    }
  }

  lemma MissKeepsEventInv(s: State, t: nat)
    requires EventInv(s) && t in s.threads && s.threads[t].pc.Started?
    ensures EventInv(s.(threads := s.threads[t := s.threads[t].(pc := Missed)]))
  {
    hide LogCalled;
    EventsKeepLogCalled(s, s.(threads := s.threads[t := s.threads[t].(pc := Missed)]));
    var s' := s.(threads := s.threads[t := s.threads[t].(pc := Missed)]);
    assert forall u :: u in s'.threads ==> u in s.threads && s'.threads[u].call == s.threads[u].call
                                           && s'.threads[u].op == s.threads[u].op;
  }

  lemma ReturnKeepsThreadInv(s: State, t: nat)
    requires ThreadInv(s) && Enabled(s, Return(t))
    ensures ThreadInv(Do(s, Return(t)))
  {
    var s' := Do(s, Return(t));
    forall u | u in s.threads
      ensures WasCalled(s', s.threads[u].call, s.threads[u].op)
      ensures s.threads[u].pc.Finished? ==> InLog(s', s.threads[u].call, s.threads[u].op, s.threads[u].pc.result)
      ensures !s.threads[u].pc.Finished? ==> NotInLog(s', s.threads[u].call)
    {
      KeepsFacts(s, s', u);
    }
  }

  lemma ReturnKeepsEventLog(s: State, t: nat)
    requires LogInv(s) && ThreadInv(s) && EventLog(s) && Enabled(s, Return(t))
    ensures EventLog(Do(s, Return(t)))
  {
    hide WasCalled, NotInLog;
    var s' := Do(s, Return(t));
    var a := s.threads[t];
    assert InLog(s, a.call, a.op, a.pc.result);
    var n :| 0 <= n < |s.log| && s.log[n] == Entry(a.call, a.op, a.pc.result);
    assert s'.log[n].call == a.call;
    forall i {:trigger s'.events[i]} | 0 <= i < |s'.events| && s'.events[i].Returned?
      ensures exists m {:trigger s'.log[m]} :: 0 <= m < |s'.log| && s'.log[m].call == s'.events[i].call
    {
      if i < |s.events| {
        assert s'.events[i] == s.events[i];
        var m :| 0 <= m < |s.log| && s.log[m].call == s.events[i].call;
        assert s'.log[m] == s.log[m];
      }
    }
    assert forall m {:trigger s.log[m]} :: 0 <= m < |s.log| && s.log[m].call == a.call ==> m == n;
  }

  lemma ReturnKeepsEventThreads(s: State, t: nat)
    requires ThreadInv(s) && EventThreads(s) && Enabled(s, Return(t))
    ensures EventThreads(Do(s, Return(t)))
  {
    var s' := Do(s, Return(t));
    forall i, u {:trigger s'.events[i], s'.threads[u]} |
      0 <= i < |s'.events| && u in s'.threads && s'.events[i].call == s'.threads[u].call
      ensures s'.events[i].Called? && s'.events[i].op == s'.threads[u].op
    {
      assert s'.threads[u] == s.threads[u] && s.threads[u].call != s.threads[t].call;
      if i < |s.events| { assert s'.events[i] == s.events[i]; }
    }
  }

  lemma ReturnKeepsEventOrder(s: State, t: nat)
    requires ThreadInv(s) && EventOrder(s) && Enabled(s, Return(t))
    ensures EventOrder(Do(s, Return(t)))
  {
    var s' := Do(s, Return(t));
    assert forall i {:trigger s'.events[i]} :: 0 <= i < |s.events| ==> s'.events[i] == s.events[i];
  }

  lemma StepKeepsInv(s: State, step: Step)
    requires Inv(s) && Enabled(s, step)
    ensures Inv(Do(s, step))
  {
    hide EventLog, EventThreads, EventOrder, LogCalled, Legal, Replay, InLog, NotInLog, WasCalled;
    match step
    case Call(t, op) =>
      CallKeepsThreadInv(s, t, op);
      CallKeepsEventInv(s, t, op);
    case Load(t) =>
      if s.threads[t].op.key in s.cache {
        FinishKeepsInv(s, t, s.cache, Some(s.cache[s.threads[t].op.key]));
      } else {
        MissKeepsThreadInv(s, t);
        MissKeepsEventInv(s, t);
      }
    case Return(t) =>
      ReturnKeepsThreadInv(s, t);
      ReturnKeepsEventLog(s, t);
      ReturnKeepsEventThreads(s, t);
      ReturnKeepsEventOrder(s, t);
      EventsKeepLogCalled(s, Do(s, step));
    case _ =>
      var (cache, result) := Apply(s.cache, s.threads[step.thread].call, s.threads[step.thread].op);
      FinishKeepsInv(s, step.thread, cache, result);
  }

  lemma {:induction false} RunKeepsInv(steps: seq<Step>)
    requires Run(steps).Some?
    ensures Inv(Run(steps).value)
  {
    if steps != [] {
      RunKeepsInv(steps[..|steps| - 1]);
      StepKeepsInv(Run(steps[..|steps| - 1]).value, steps[|steps| - 1]);
    }
  }

  // ----- linearizability -----

  /** a's return comes before b's call. */
  ghost predicate Precedes(s: State, a: nat, b: nat) {
    exists i, j {:trigger s.events[i], s.events[j]} ::
      0 <= i < j < |s.events| && s.events[i].Returned? && s.events[i].call == a
      && s.events[j].Called? && s.events[j].call == b
  }

  /** In every interleaving of any number of threads the log is a linearization: replaying it one operation at a
      time gives every operation the result its call returned; it holds only operations that were called before they
      took effect, each once, and every returned call; and a call that returned before another was made comes before
      it. */
  lemma {:induction false} Linearizable(steps: seq<Step>)
    requires Run(steps).Some?
    ensures var s := Run(steps).value;
            && Legal(s.log) && s.cache == Replay(s.log)
            && (forall m, n :: 0 <= m < |s.log| && 0 <= n < |s.log| && s.log[m].call == s.log[n].call ==> m == n)
            && (forall i :: 0 <= i < |s.events| && s.events[i].Returned? ==>
                  exists n :: 0 <= n < |s.log| && s.log[n].call == s.events[i].call
                              && s.log[n].result == s.events[i].result)
            && (forall i, n ::
                  0 <= i < |s.events| && 0 <= n < |s.log| && s.events[i].Called?
                  && s.log[n].call == s.events[i].call ==>
                    s.log[n].op == s.events[i].op)
            && (forall n :: 0 <= n < |s.log| ==> CalledBefore(s, n))
            && (forall m, n ::
                  0 <= m < |s.log| && 0 <= n < |s.log| && Precedes(s, s.log[m].call, s.log[n].call) ==> m < n)
  {
    RunKeepsInv(steps);
    var s := Run(steps).value;
    hide *;
    SequentiallyLegal(s);
    LogMatchesEvents(s);
    RealTimeOrder(s);
  }

  lemma SequentiallyLegal(s: State)
    requires Inv(s)
    ensures Legal(s.log) && s.cache == Replay(s.log)
    ensures forall m, n :: 0 <= m < |s.log| && 0 <= n < |s.log| && s.log[m].call == s.log[n].call ==> m == n
  {
    hide Legal, Replay, ThreadInv, EventInv;
  }

  lemma LogMatchesEvents(s: State)
    requires Inv(s)
    ensures forall i :: 0 <= i < |s.events| && s.events[i].Returned? ==>
              exists n :: 0 <= n < |s.log| && s.log[n].call == s.events[i].call && s.log[n].result == s.events[i].result
    ensures forall i, n ::
              0 <= i < |s.events| && 0 <= n < |s.log| && s.events[i].Called? && s.log[n].call == s.events[i].call ==>
                s.log[n].op == s.events[i].op
    ensures forall n :: 0 <= n < |s.log| ==> CalledBefore(s, n)
  {
    hide CacheInv, LogInv, ThreadInv, EventOrder, EventThreads, CalledBefore;
    forall i | 0 <= i < |s.events| && s.events[i].Returned?
      ensures exists n :: 0 <= n < |s.log| && s.log[n].call == s.events[i].call && s.log[n].result == s.events[i].result
    {
      var n :| 0 <= n < |s.log| && s.log[n].call == s.events[i].call;
      assert s.log[n].result == s.events[i].result;
    }
  }

  lemma RealTimeOrder(s: State)
    requires Inv(s)
    ensures forall m, n :: 0 <= m < |s.log| && 0 <= n < |s.log| && Precedes(s, s.log[m].call, s.log[n].call) ==> m < n
  {
    hide CacheInv, LogInv, ThreadInv, EventThreads, LogCalled;
    forall m, n | 0 <= m < |s.log| && 0 <= n < |s.log| && Precedes(s, s.log[m].call, s.log[n].call) ensures m < n {
      var i, j :| 0 <= i < j < |s.events| && s.events[i].Returned? && s.events[i].call == s.log[m].call
                  && s.events[j].Called? && s.events[j].call == s.log[n].call;
      assert m < s.events[i].at <= s.events[j].at <= n;
    }
  }

  /** The log only grows, and the cache at any earlier moment is the replay of the log as it was then. */
  lemma {:induction false} LogIsHistory(steps: seq<Step>, k: nat)
    requires k <= |steps| && Run(steps).Some?
    ensures Run(steps[..k]).Some?
    ensures var past, now := Run(steps[..k]).value, Run(steps).value;
            past.log <= now.log && past.cache == Replay(now.log[..|past.log|])
    decreases |steps|
  {
    if k == |steps| {
      RunKeepsInv(steps);
      assert steps[..k] == steps;
      var s := Run(steps).value;
      assert s.log[..|s.log|] == s.log;
    } else {
      var front := steps[..|steps| - 1];
      LogIsHistory(front, k);
      assert front[..k] == steps[..k];
      var past, before, now := Run(steps[..k]).value, Run(front).value, Run(steps).value;
      LogGrows(before, steps[|steps| - 1]);
      assert now.log[..|past.log|] == before.log[..|past.log|];
    }
  }

  lemma LogGrows(s: State, step: Step)
    requires Enabled(s, step)
    ensures s.log <= Do(s, step).log
  {
  }

  /** The entry of a returned Resolve, and what the cache held right after it. */
  lemma EntryOfResolve(s: State, i: nat, j: nat) returns (n: nat)
    requires CacheInv(s) && EventLog(s)
    requires i < |s.events| && j < |s.events| && s.events[i].Called? && s.events[i].op.Resolve?
    requires s.events[j].Returned? && s.events[j].call == s.events[i].call
    ensures s.events[i].at <= n < s.events[j].at && n < |s.log| && s.log[n].op == s.events[i].op
    ensures var held := Replay(s.log[..n + 1]);
            s.events[i].op.key in held && s.events[j].result == Some(held[s.events[i].op.key])
  {
    hide Replay, CacheInv;
    n :| 0 <= n < |s.log| && s.log[n].call == s.events[j].call;
    assert s.log[n].op == s.events[i].op && s.log[n].result == s.events[j].result;
    HeldAfterResolve(s, n);
  }

  /** Right after a Resolve took effect the cache holds its result. */
  lemma HeldAfterResolve(s: State, n: nat)
    requires CacheInv(s) && n < |s.log| && s.log[n].op.Resolve?
    ensures var held := Replay(s.log[..n + 1]);
            s.log[n].op.key in held && s.log[n].result == Some(held[s.log[n].op.key])
  {
    assert s.log[..n + 1][..n] == s.log[..n] && s.log[..n + 1][n] == s.log[n];
  }

  /** Events recorded after some moment are marked with at least the effects there were at that moment. */
  lemma {:induction false} LaterEvents(steps: seq<Step>, k: nat)
    requires k <= |steps| && Run(steps).Some?
    ensures Run(steps[..k]).Some?
    ensures var past, now := Run(steps[..k]).value, Run(steps).value;
            && past.events <= now.events && |past.log| <= |now.log|
            && forall i :: |past.events| <= i < |now.events| ==> |past.log| <= now.events[i].at
    decreases |steps|
  {
    if k == |steps| {
      assert steps[..k] == steps;
    } else {
      var front := steps[..|steps| - 1];
      LaterEvents(front, k);
      assert front[..k] == steps[..k];
      EventsGrow(Run(front).value, steps[|steps| - 1]);
    }
  }

  lemma EventsGrow(s: State, step: Step)
    requires Enabled(s, step)
    ensures s.events <= Do(s, step).events && |s.log| <= |Do(s, step).log|
    ensures forall i :: |s.events| <= i < |Do(s, step).events| ==> Do(s, step).events[i].at == |s.log|
  {
  }

  /** The step at which the n-th effect happened; it records no event. */
  lemma {:induction false} EffectStep(steps: seq<Step>, n: nat) returns (k: nat)
    requires Run(steps).Some? && n < |Run(steps).value.log|
    ensures k < |steps| && Run(steps[..k]).Some? && Run(steps[..k + 1]).Some?
    ensures |Run(steps[..k]).value.log| == n && |Run(steps[..k + 1]).value.log| == n + 1
    ensures Run(steps[..k + 1]).value.events == Run(steps[..k]).value.events
    decreases |steps|
  {
    var front := steps[..|steps| - 1];
    if n < |Run(front).value.log| {
      k := EffectStep(front, n);
      assert front[..k] == steps[..k] && front[..k + 1] == steps[..k + 1];
    } else {
      OneEffectAStep(Run(front).value, steps[|steps| - 1]);
      hide Do, Enabled;
      k := |front|;
      assert steps[..k] == front && steps[..k + 1] == steps;
    }
  }

  lemma OneEffectAStep(s: State, step: Step)
    requires Enabled(s, step)
    ensures |Do(s, step).log| <= |s.log| + 1
    ensures |Do(s, step).log| > |s.log| ==> Do(s, step).events == s.events
  {
  }

  /** The config in the cache at a moment of the run: k steps done, the call's event already recorded and the
      return's event not yet. */
  ghost predicate HeldDuringCall(steps: seq<Step>, k: nat, i: nat, j: nat, key: Key, result: Option<Config>) {
    && k <= |steps| && Run(steps[..k]).Some?
    && var moment := Run(steps[..k]).value;
       i < |moment.events| <= j && key in moment.cache && result == Some(moment.cache[key])
  }

  /** Every Resolve returns a config that the cache held for its key at some instant between its call and its return:
      in the state after the first k steps of the run, for some k past the call's step and before the return's. */
  lemma {:induction false} ResolveReturnsHeldConfig(steps: seq<Step>, i: nat, j: nat)
    requires Run(steps).Some?
    requires var events := Run(steps).value.events;
             && i < |events| && j < |events| && events[i].Called? && events[i].op.Resolve?
             && events[j].Returned? && events[j].call == events[i].call
    ensures var events := Run(steps).value.events;
            exists k :: HeldDuringCall(steps, k, i, j, events[i].op.key, events[j].result)
  {
    hide Run, Replay, CacheInv, LogInv, ThreadInv, EventOrder, EventLog, EventThreads, LogCalled;
    RunKeepsInv(steps);
    var s := Run(steps).value;
    var n := EntryOfResolve(s, i, j);
    var k := EffectStep(steps, n);
    LogIsHistory(steps, k + 1);
    LaterEvents(steps, k + 1);
    RunKeepsInv(steps[..k]);
    BetweenCallAndReturn(Run(steps[..k]).value, s, i, j, n);
    assert HeldDuringCall(steps, k + 1, i, j, s.events[i].op.key, s.events[j].result);
  }

  /** Events marked up to n are recorded when the n-th effect happens, events marked above n are not yet. */
  lemma BetweenCallAndReturn(before: State, s: State, i: nat, j: nat, n: nat)
    requires EventOrder(before) && |before.log| == n && before.events <= s.events
    requires forall e :: |before.events| <= e < |s.events| ==> n + 1 <= s.events[e].at
    requires i < |s.events| && j < |s.events| && s.events[i].at <= n < s.events[j].at
    ensures i < |before.events| <= j
  {
    assert forall e :: 0 <= e < |before.events| ==> s.events[e] == before.events[e];
  }

  // ----- without writers -----

  /** The config made by the first Resolve of a key to take effect. */
  function FirstMade(log: seq<Entry>, key: Key): Option<Config> {
    if log == [] then None
    else
      var earlier := FirstMade(log[..|log| - 1], key);
      var last := log[|log| - 1];
      if earlier.Some? then earlier
      else if last.op.key == key && last.op.Resolve? then Some(Made(last.call, last.op))
      else None
  }

  predicate OnlyResolves(log: seq<Entry>) {
    forall n {:trigger log[n]} :: 0 <= n < |log| ==> log[n].op.Resolve?
  }

  lemma {:induction false} FirstStays(log: seq<Entry>, key: Key)
    requires OnlyResolves(log)
    ensures FirstMade(log, key) == if key in Replay(log) then Some(Replay(log)[key]) else None
  {
    if log != [] {
      var front := log[..|log| - 1];
      assert forall n {:trigger front[n]} :: 0 <= n < |front| ==> front[n] == log[n];
      assert log[|log| - 1].op.Resolve?;
      FirstStays(front, key);
    }
  }

  lemma {:induction false} FirstOfPrefix(log: seq<Entry>, n: nat, key: Key)
    requires n <= |log| && FirstMade(log[..n], key).Some?
    ensures FirstMade(log, key) == FirstMade(log[..n], key)
    decreases |log|
  {
    if n == |log| {
      assert log[..n] == log;
    } else {
      var front := log[..|log| - 1];
      assert front[..n] == log[..n];
      FirstOfPrefix(front, n, key);
    }
  }

  lemma ReturnsFirstMade(s: State, i: nat, j: nat)
    requires CacheInv(s) && EventLog(s) && OnlyResolves(s.log)
    requires i < |s.events| && j < |s.events| && s.events[i].Called?
    requires s.events[j].Returned? && s.events[j].call == s.events[i].call
    ensures FirstMade(s.log, s.events[i].op.key).Some?
    ensures s.events[j].result == FirstMade(s.log, s.events[i].op.key)
  {
    CalledIsResolve(s, i, j);
    var n := EntryOfResolve(s, i, j);
    hide CacheInv, EventLog, OnlyResolves, Replay, FirstMade;
    PrefixAgrees(s.log, n + 1, s.events[i].op.key);
  }

  lemma CalledIsResolve(s: State, i: nat, j: nat)
    requires EventLog(s) && OnlyResolves(s.log)
    requires i < |s.events| && j < |s.events| && s.events[i].Called?
    requires s.events[j].Returned? && s.events[j].call == s.events[i].call
    ensures s.events[i].op.Resolve?
  {
    var n :| 0 <= n < |s.log| && s.log[n].call == s.events[j].call;
    assert s.log[n].op == s.events[i].op;
  }

  lemma {:induction false} PrefixAgrees(log: seq<Entry>, n: nat, key: Key)
    requires n <= |log| && OnlyResolves(log) && key in Replay(log[..n])
    ensures FirstMade(log, key) == Some(Replay(log[..n])[key])
  {
    assert forall m {:trigger log[..n][m]} :: 0 <= m < n ==> log[..n][m] == log[m];
    FirstStays(log[..n], key);
    FirstOfPrefix(log, n, key);
  }
}
