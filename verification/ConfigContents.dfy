/** What callers of pkg/model/protocol_config.go get, in every interleaving: the contents of the configs that the cache
    holds and that calls return, and that no call ever waits. */
module ConfigContents {
  import opened Basics
  import opened ConfigCache

  // ----- the cache in closed form -----

  /** The operation gives its key a config if it has none, or a new one. */
  predicate Makes(op: Op, key: Key) {
    op.key == key && !op.Remove?
  }

  ghost predicate RemovedBetween(log: seq<Entry>, m: int, n: int, key: Key) {
    exists k {:trigger log[k]} :: 0 <= m < k < n <= |log| && log[k].op == Remove(key)
  }

  /** The n-th effect made the config that the key has in the end: nothing but Resolves of the key came later, and if it
      was a Resolve itself, everything made for the key before had been removed. */
  ghost predicate IsHeld(log: seq<Entry>, n: nat, key: Key) {
    && n < |log| && Makes(log[n].op, key)
    && (forall l {:trigger log[l]} :: n < l < |log| && log[l].op.key == key ==> log[l].op.Resolve?)
    && (log[n].op.Resolve? ==>
          forall m {:trigger log[m]} :: 0 <= m < n && Makes(log[m].op, key) ==> RemovedBetween(log, m, n, key))
  }

  /** Everything made for the key has been removed. */
  ghost predicate AllRemoved(log: seq<Entry>, key: Key) {
    forall m {:trigger log[m]} :: 0 <= m < |log| && Makes(log[m].op, key) ==> RemovedBetween(log, m, |log|, key)
  }

  lemma StaysRemoved(front: seq<Entry>, log: seq<Entry>, m: int, n: int, key: Key)
    requires front <= log && n <= |front|
    ensures RemovedBetween(front, m, n, key) == RemovedBetween(log, m, n, key)
  {
    assert forall k {:trigger front[k]} {:trigger log[k]} :: 0 <= k < |front| ==> front[k] == log[k];
  }

  /** What is held after one more effect. */
  lemma HeldStep(log: seq<Entry>, n: nat, key: Key)
    requires log != []
    ensures var front, last := log[..|log| - 1], log[|log| - 1].op;
            IsHeld(log, n, key) <==>
              if n == |front| then Makes(last, key) && (last.Resolve? ==> AllRemoved(front, key))
              else IsHeld(front, n, key) && (last.key == key ==> last.Resolve?)
  {
    var front := log[..|log| - 1];
    hide RemovedBetween;
    assert forall k {:trigger front[k]} {:trigger log[k]} :: 0 <= k < |front| ==> front[k] == log[k];
    forall m: int, e: int ensures e <= |front| ==> RemovedBetween(front, m, e, key) == RemovedBetween(log, m, e, key) {
      if e <= |front| { StaysRemoved(front, log, m, e, key); }
    }
  }

  /** ... and whether everything is removed. */
  lemma RemovedStep(log: seq<Entry>, key: Key)
    requires log != []
    ensures var front, last := log[..|log| - 1], log[|log| - 1].op;
            AllRemoved(log, key) <==> if last.key == key then last.Remove? else AllRemoved(front, key)
  {
    var n := |log| - 1;
    var front := log[..n];
    assert forall k {:trigger front[k]} {:trigger log[k]} :: 0 <= k < n ==> front[k] == log[k];
    if Makes(log[n].op, key) { assert !RemovedBetween(log, n, |log|, key); }
    if log[n].op == Remove(key) {
      forall m {:trigger log[m]} | 0 <= m < |log| && Makes(log[m].op, key) ensures RemovedBetween(log, m, |log|, key) {}
    } else if log[n].op.key != key {
      forall m ensures 0 <= m < n ==> RemovedBetween(log, m, |log|, key) == RemovedBetween(front, m, n, key) {}
      if AllRemoved(log, key) { assert AllRemoved(front, key); }
    }
  }

  /** The cache after any sequence of effects, key by key: the config of the effect that is held, which carries the
      protocol of its key and exactly the properties of its call; none exactly if everything made was removed. */
  lemma {:induction false} CacheInClosedForm(log: seq<Entry>, key: Key)
    ensures key in Replay(log) <==> !AllRemoved(log, key)
    ensures key in Replay(log) <==> exists n: nat :: IsHeld(log, n, key)
    ensures forall n: nat :: IsHeld(log, n, key) ==>
              key in Replay(log) &&
              Replay(log)[key] == Config(log[n].call, key.protocol, log[n].op.properties)
  {
    hide IsHeld, AllRemoved;
    if log == [] {
      EmptyLog(key);
    } else {
      var front, last := log[..|log| - 1], log[|log| - 1];
      CacheInClosedForm(front, key);
      RemovedStep(log, key);
      forall n: nat
        ensures IsHeld(log, n, key) <==>
                  if n == |front| then Makes(last.op, key) && (last.op.Resolve? ==> AllRemoved(front, key))
                  else IsHeld(front, n, key) && (last.op.key == key ==> last.op.Resolve?)
        ensures IsHeld(front, n, key) ==> n < |front| && log[n] == front[n]
      {
        HeldStep(log, n, key);
        if IsHeld(front, n, key) { HeldInside(front, n, key); }
      }
      assert IsHeld(log, |front|, key) || !IsHeld(log, |front|, key);
    }
  }

  lemma HeldInside(log: seq<Entry>, n: nat, key: Key)
    requires IsHeld(log, n, key)
    ensures n < |log|
  {
  }

  lemma EmptyLog(key: Key)
    ensures AllRemoved([], key) && forall n: nat :: !IsHeld([], n, key)
  {
  }

  // ----- contents, from the calls -----

  /** The config comes from one of the first calls: a Resolve or Update of the key. It carries that call's identity, the
      key's protocol and exactly the properties the call was made with. */
  ghost predicate FromCall(events: seq<Event>, before: nat, key: Key, config: Config) {
    exists i {:trigger events[i]} :: 0 <= i < |events| && i < before && events[i].Called? && !events[i].op.Remove?
      && events[i].op.key == key && events[i].call == config.madeBy
      && config == Config(events[i].call, key.protocol, events[i].op.properties)
  }

  /** What the call returned: nothing for a Remove, a config with its own properties for an Update, and for a Resolve a
      config that a Resolve or Update of the same key brought in before the return. */
  ghost predicate AsCalled(events: seq<Event>, i: nat, j: nat)
    requires i < |events| && j < |events| && events[i].Called? && events[j].Returned?
  {
    match events[i].op
    case Remove(_) => events[j].result == None
    case Update(key, properties) => events[j].result == Some(Config(events[i].call, key.protocol, properties))
    case Resolve(key, _) => events[j].result.Some? && FromCall(events, j, key, events[j].result.value)
  }

  /** The calls of a log's effects are among the events, in time. */
  lemma HeldFromCall(s: State, n: nat, key: Key, config: Config, before: nat)
    requires LogCalled(s) && EventOrder(s) && n <= |s.log| && before <= |s.events|
    requires key in Replay(s.log[..n]) && Replay(s.log[..n])[key] == config
    requires forall i {:trigger s.events[i]} :: before <= i < |s.events| ==> n <= s.events[i].at
    ensures FromCall(s.events, before, key, config)
  {
    hide LogCalled, EventOrder, Replay;
    CacheInClosedForm(s.log[..n], key);
    var m: nat :| IsHeld(s.log[..n], m, key);
    assert s.log[..n][m] == s.log[m];
    EffectFromCall(s, m, n, before, key);
  }

  lemma EffectFromCall(s: State, m: nat, n: nat, before: nat, key: Key)
    requires LogCalled(s) && m < n <= |s.log| && before <= |s.events| && Makes(s.log[m].op, key)
    requires forall i {:trigger s.events[i]} :: before <= i < |s.events| ==> n <= s.events[i].at
    ensures FromCall(s.events, before, key, Config(s.log[m].call, key.protocol, s.log[m].op.properties))
  {
    assert CalledBefore(s, m);
    var i :| 0 <= i < |s.events| && s.events[i].Called?
             && s.events[i].call == s.log[m].call && s.events[i].op == s.log[m].op && s.events[i].at <= m;
    assert i < before;
  }

  /** An effect's result, from the effects before it. */
  lemma ResultOfEffect(log: seq<Entry>, n: nat)
    requires Legal(log) && n < |log|
    ensures match log[n].op
            case Remove(_) => log[n].result == None
            case Update(key, properties) => log[n].result == Some(Config(log[n].call, key.protocol, properties))
            case Resolve(key, _) =>
              key in Replay(log[..n + 1]) && log[n].result == Some(Replay(log[..n + 1])[key])
  {
    assert log[..n + 1][..n] == log[..n] && log[..n + 1][n] == log[n];
  }

  lemma ReturnAsCalled(s: State, i: nat, j: nat)
    requires Inv(s) && i < |s.events| && j < |s.events|
    requires s.events[i].Called? && s.events[j].Returned? && s.events[i].call == s.events[j].call
    ensures AsCalled(s.events, i, j)
  {
    hide ThreadInv, EventThreads, Replay, LogCalled, Legal;
    var n :| 0 <= n < |s.log| && s.log[n].call == s.events[j].call;
    assert s.log[n].op == s.events[i].op && s.log[n].result == s.events[j].result && n < s.events[j].at;
    ResultOfEffect(s.log, n);
    if s.log[n].op.Resolve? {
      forall e {:trigger s.events[e]} | j <= e < |s.events| ensures n + 1 <= s.events[e].at {
        assert s.events[j].at <= s.events[e].at;
      }
      HeldFromCall(s, n + 1, s.log[n].op.key, s.events[j].result.value, j);
    }
  }

  /** In every run, whatever the interleaving: every call that returned was called, and returned what its operation and
      the calls before its return determine; and every config in the cache is that of a call for its key. */
  lemma {:induction false} ConfigsAreAsCalled(steps: seq<Step>)
    requires Run(steps).Some?
    ensures var s := Run(steps).value;
            && (forall j {:trigger s.events[j]} :: 0 <= j < |s.events| && s.events[j].Returned? ==>
                  exists i {:trigger s.events[i]} :: 0 <= i < |s.events| && s.events[i].Called?
                                                     && s.events[i].call == s.events[j].call)
            && (forall i, j {:trigger s.events[i], s.events[j]} ::
                  (&& 0 <= i < |s.events| && 0 <= j < |s.events| && s.events[i].Called? && s.events[j].Returned?
                   && s.events[i].call == s.events[j].call) ==> i < j && AsCalled(s.events, i, j))
            && (forall key :: key in s.cache ==> FromCall(s.events, |s.events|, key, s.cache[key]))
  {
    RunKeepsInv(steps);
    var s := Run(steps).value;
    hide Run, AsCalled, FromCall, Replay, Legal;
    forall i, j {:trigger s.events[i], s.events[j]} |
      0 <= i < |s.events| && 0 <= j < |s.events| && s.events[i].Called? && s.events[j].Returned?
      && s.events[i].call == s.events[j].call
      ensures i < j && AsCalled(s.events, i, j)
    {
      ReturnAsCalled(s, i, j);
      CalledFirst(s, i, j);
    }
    forall j {:trigger s.events[j]} | 0 <= j < |s.events| && s.events[j].Returned?
      ensures exists i {:trigger s.events[i]} :: 0 <= i < |s.events| && s.events[i].Called?
                                                 && s.events[i].call == s.events[j].call
    {
      ReturnWasCalled(s, j);
    }
    assert s.log[..|s.log|] == s.log;
    forall key | key in s.cache ensures FromCall(s.events, |s.events|, key, s.cache[key]) {
      HeldFromCall(s, |s.log|, key, s.cache[key], |s.events|);
    }
  }

  lemma CalledFirst(s: State, i: nat, j: nat)
    requires EventOrder(s) && EventLog(s) && i < |s.events| && j < |s.events|
    requires s.events[i].Called? && s.events[j].Returned? && s.events[i].call == s.events[j].call
    ensures i < j
  {
    var n :| 0 <= n < |s.log| && s.log[n].call == s.events[j].call;
    assert s.events[i].at <= n < s.events[j].at;
  }

  lemma ReturnWasCalled(s: State, j: nat)
    requires EventLog(s) && LogCalled(s) && j < |s.events| && s.events[j].Returned?
    ensures exists i {:trigger s.events[i]} :: 0 <= i < |s.events| && s.events[i].Called?
                                               && s.events[i].call == s.events[j].call
  {
    var n :| 0 <= n < |s.log| && s.log[n].call == s.events[j].call;
    assert CalledBefore(s, n);
  }

  // ----- without writers -----

  ghost predicate OnlyResolvesCalled(events: seq<Event>) {
    forall i {:trigger events[i]} :: 0 <= i < |events| && events[i].Called? ==> events[i].op.Resolve?
  }

  /** If nobody calls Update or Remove, any two Resolves of a key that returned have returned one and the same config,
      with the properties of one of the Resolves of that key. */
  lemma {:induction false} ResolvesAgree(steps: seq<Step>, i: nat, j: nat, k: nat, l: nat)
    requires Run(steps).Some? && OnlyResolvesCalled(Run(steps).value.events)
    requires var events := Run(steps).value.events;
             && i < |events| && j < |events| && k < |events| && l < |events|
             && events[i].Called? && events[j].Returned? && events[j].call == events[i].call
             && events[k].Called? && events[l].Returned? && events[l].call == events[k].call
             && events[i].op.key == events[k].op.key
    ensures var events := Run(steps).value.events;
            && events[j].result.Some? && events[l].result == events[j].result
            && FromCall(events, |events|, events[i].op.key, events[j].result.value)
  {
    RunKeepsInv(steps);
    var s := Run(steps).value;
    hide Run, FirstMade;
    OnlyResolvesTookEffect(s);
    ReturnsFirstMade(s, i, j);
    ReturnsFirstMade(s, k, l);
    ReturnAsCalled(s, i, j);
  }

  lemma OnlyResolvesTookEffect(s: State)
    requires LogCalled(s) && OnlyResolvesCalled(s.events)
    ensures OnlyResolves(s.log)
  {
    forall n {:trigger s.log[n]} | 0 <= n < |s.log| ensures s.log[n].op.Resolve? { assert CalledBefore(s, n); }
  }

  // ----- nobody waits -----

  /** Only a Resolve ever waits to store what it built. */
  ghost predicate Sound(s: State) {
    forall t :: t in s.threads && s.threads[t].pc.Missed? ==> s.threads[t].op.Resolve?
  }

  lemma {:induction false} RunIsSound(steps: seq<Step>)
    requires Run(steps).Some?
    ensures Sound(Run(steps).value)
  {
    if steps != [] { RunIsSound(steps[..|steps| - 1]); }
  }

  /** The steps a thread has yet to take to return from its call. */
  function StepsLeft(s: State, t: nat): nat {
    if t !in s.threads then 0
    else match s.threads[t].pc
      case Started => if s.threads[t].op.Resolve? then 3 else 2
      case Missed => 2
      case Finished(_) => 1
  }

  /** The cache is wait-free. In every state of every run a thread that is not in a call can make any call, and one
      that is can take a step of its own, whatever the others have done; each such step brings it nearer to its return,
      and no step of another thread takes it further away. So a call returns within three steps of its own. */
  lemma {:induction false} WaitFree(steps: seq<Step>, t: nat)
    requires Run(steps).Some?
    ensures var s := Run(steps).value;
            && StepsLeft(s, t) <= 3
            && (t !in s.threads ==> forall op: Op :: Enabled(s, Call(t, op)))
            && (t in s.threads ==> exists step: Step :: step.thread == t && Enabled(s, step))
            && (t in s.threads ==> forall step: Step :: Enabled(s, step) ==>
                  if step.thread == t then StepsLeft(Do(s, step), t) < StepsLeft(s, t)
                  else StepsLeft(Do(s, step), t) == StepsLeft(s, t))
  {
    RunIsSound(steps);
    var s := Run(steps).value;
    hide Run;
    if t in s.threads {
      var step := match s.threads[t].pc
        case Started =>
          if s.threads[t].op.Resolve? then Load(t) else if s.threads[t].op.Update? then Store(t) else Delete(t)
        case Missed => LoadOrStore(t)
        case Finished(_) => Return(t);
      assert step.thread == t && Enabled(s, step);
    }
  }
}
