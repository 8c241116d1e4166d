/**
 The blocking queue as a monitor: threads call enqueue and dequeue, sleep on the condition variable
 and are woken by notify_all, by a spurious wake-up or by a time-out. A step is what one thread does
 while it holds the mutex. Items are known by a number; nothing looks inside them.
 */
module QueueMonitor {
  import opened Bytes

  type Item = nat

  /** A wait time of 0, of some milliseconds, and TIME_INFINITE. */
  datatype Wait = NoWait | Bounded | Forever

  datatype Config = Config(maxSize: nat, enqueueWait: Wait, dequeueWait: Wait)

  /** The constructors round the size up to 1. */
  function Size(c: Config): (size: nat)
    ensures size >= 1 && size == (if c.maxSize == 0 then 1 else c.maxSize)
  {
    if c.maxSize < 1 then 1 else c.maxSize
  }

  datatype Call = Enqueue(item: Item) | Dequeue

  datatype Outcome = Added | Got(item: Item) | ServiceDown | Overflow | EmptyRecord | TimedOut

  datatype Thread = Outside | Ready(call: Call, waited: bool) | Asleep(call: Call)

  /** What happened, in the order of the mutex: a call returned, or the queue was told to quit. */
  datatype Event = Returned(call: Call, outcome: Outcome) | Quit

  datatype State = State(held: seq<Item>, quit: bool, threads: seq<Thread>, log: seq<Event>)

  datatype Action = Invoke(t: nat, call: Call) | Go(t: nat) | Wake(t: nat) | Expire(t: nat) | NotifyAll

  function WaitOf(c: Config, call: Call): Wait {
    if call.Enqueue? then c.enqueueWait else c.dequeueWait
  }

  predicate Enabled(c: Config, s: State, a: Action) {
    match a
    case Invoke(t, _) => t < |s.threads| && s.threads[t].Outside?
    case Go(t) => t < |s.threads| && s.threads[t].Ready?
    case Wake(t) => t < |s.threads| && s.threads[t].Asleep?
    case Expire(t) =>
      t < |s.threads| && s.threads[t].Ready? && s.threads[t].waited && WaitOf(c, s.threads[t].call).Bounded?
    case NotifyAll => true
  }

  /** How the loop of a call ends this time, or None when it goes to sleep. */
  function Result(c: Config, s: State, call: Call): Option<Outcome> {
    match call
    case Enqueue(_) =>
      if |s.held| < Size(c) then Some(Added)
      else if s.quit then Some(ServiceDown)
      else if c.enqueueWait.NoWait? then Some(Overflow)
      else None
    case Dequeue =>
      if s.held != [] then Some(Got(s.held[0]))
      else if s.quit then Some(ServiceDown)
      else if c.dequeueWait.NoWait? then Some(EmptyRecord)
      else None
  }

  function Woken(threads: seq<Thread>): (r: seq<Thread>)
    ensures |r| == |threads|
  {
    seq(|threads|, i requires 0 <= i < |threads| =>
      if threads[i].Asleep? then Ready(threads[i].call, true) else threads[i])
  }

  function Return(s: State, t: nat, outcome: Outcome): State
    requires t < |s.threads| && !s.threads[t].Outside?
  {
    s.(threads := s.threads[t := Outside], log := s.log + [Returned(s.threads[t].call, outcome)])
  }

  /** One step; an action that is not enabled changes nothing. */
  function Next(c: Config, s: State, a: Action): (r: State)
    ensures |r.threads| == |s.threads|
  {
    if !Enabled(c, s, a) then s else
      match a
      case Invoke(t, call) => s.(threads := s.threads[t := Ready(call, false)])
      case Go(t) =>
        var call := s.threads[t].call;
        (match Result(c, s, call)
         case None => s.(threads := s.threads[t := Asleep(call)])
         case Some(outcome) =>
           match outcome
           case Added => Return(s.(held := s.held + [call.item], threads := Woken(s.threads)), t, Added)
           case Got(x) => Return(s.(held := s.held[1..]), t, Got(x))
           case _ => Return(s, t, outcome))
      case Wake(t) => s.(threads := s.threads[t := Ready(s.threads[t].call, true)])
      case Expire(t) => Return(s, t, TimedOut)
      case NotifyAll => s.(quit := true, threads := Woken(s.threads), log := s.log + [Quit])
  }

  function Initial(n: nat): State {
    State([], false, seq(n, _ => Outside), [])
  }

  function Run(c: Config, n: nat, actions: seq<Action>): (r: State)
    ensures |r.threads| == n
  {
    if actions == [] then Initial(n) else Next(c, Run(c, n, actions[..|actions| - 1]), actions[|actions| - 1])
  }

  // ----- the plain bounded queue the calls must agree with -----

  datatype Plain = Plain(held: seq<Item>, quit: bool)

  /** The returns a plain bounded queue could make; a time-out is always possible for a bounded wait. */
  predicate Allowed(c: Config, p: Plain, e: Event) {
    match e
    case Quit => true
    case Returned(call, outcome) =>
      match outcome
      case Added => call.Enqueue? && |p.held| < Size(c)
      case Got(x) => call.Dequeue? && p.held != [] && p.held[0] == x
      case ServiceDown => p.quit && if call.Enqueue? then |p.held| == Size(c) else p.held == []
      case Overflow => call.Enqueue? && !p.quit && |p.held| == Size(c) && c.enqueueWait.NoWait?
      case EmptyRecord => call.Dequeue? && !p.quit && p.held == [] && c.dequeueWait.NoWait?
      case TimedOut => if call.Enqueue? then c.enqueueWait == Bounded else c.dequeueWait == Bounded
  }

  function Apply(c: Config, p: Plain, e: Event): Plain
    requires Allowed(c, p, e)
  {
    match e
    case Quit => p.(quit := true)
    case Returned(call, outcome) =>
      match outcome
      case Added => p.(held := p.held + [call.item])
      case Got(_) => p.(held := p.held[1..])
      case _ => p
  }

  function Replay(c: Config, log: seq<Event>): Option<Plain> {
    if log == [] then Some(Plain([], false)) else
      var before := Replay(c, log[..|log| - 1]);
      if before.Some? && Allowed(c, before.value, log[|log| - 1]) then
        Some(Apply(c, before.value, log[|log| - 1]))
      else None
  }

  function Enqueued(log: seq<Event>): seq<Item> {
    if log == [] then [] else
      var e := log[|log| - 1];
      Enqueued(log[..|log| - 1]) + if e.Returned? && e.call.Enqueue? && e.outcome.Added? then [e.call.item] else []
  }

  function Dequeued(log: seq<Event>): seq<Item> {
    if log == [] then [] else
      var e := log[|log| - 1];
      Dequeued(log[..|log| - 1]) + if e.Returned? && e.outcome.Got? then [e.outcome.item] else []
  }

  /** First in, first out, nothing lost, nothing twice, never more than the size. */
  lemma {:induction false} ReplayIsFifo(c: Config, log: seq<Event>)
    requires Replay(c, log).Some?
    ensures var held := Replay(c, log).value.held;
            |held| <= Size(c) && Enqueued(log) == Dequeued(log) + held
  {
    if log != [] {
      var before, e := log[..|log| - 1], log[|log| - 1];
      ReplayIsFifo(c, before);
      var p := Replay(c, before).value;
      if e.Returned? && e.outcome.Got? {
        assert p.held == [e.outcome.item] + p.held[1..];
        assert Dequeued(before) + ([e.outcome.item] + p.held[1..]) ==
               (Dequeued(before) + [e.outcome.item]) + p.held[1..];
      } else if e.Returned? && e.outcome.Added? {
        assert (Dequeued(before) + p.held) + [e.call.item] == Dequeued(before) + (p.held + [e.call.item]);
      }
    }
  }

  // ----- what every state of every run keeps -----

  /** Nobody sleeps who has something to do: a consumer when there is an item, anyone after quit. */
  ghost predicate NoLostWakeUp(s: State) {
    forall t :: 0 <= t < |s.threads| && s.threads[t].Asleep? ==>
      !s.quit && (s.threads[t].call.Dequeue? ==> s.held == [])
  }

  ghost predicate Agrees(c: Config, s: State) {
    Replay(c, s.log) == Some(Plain(s.held, s.quit))
  }

  ghost predicate Inv(c: Config, s: State) {
    Agrees(c, s) && NoLostWakeUp(s)
  }

  lemma LogOne(c: Config, log: seq<Event>, p: Plain, e: Event)
    requires Replay(c, log) == Some(p) && Allowed(c, p, e)
    ensures Replay(c, log + [e]) == Some(Apply(c, p, e))
  {
    assert (log + [e])[..|log|] == log;
  }

  lemma FullMeansFull(c: Config, s: State)
    requires Agrees(c, s)
    ensures |s.held| <= Size(c)
  {
    ReplayIsFifo(c, s.log);
  }

  lemma StepAgrees(c: Config, s: State, a: Action)
    requires Agrees(c, s)
    ensures Agrees(c, Next(c, s, a))
  {
    hide Replay;
    FullMeansFull(c, s);
    var r := Next(c, s, a);
    if |r.log| > |s.log| {
      LogOne(c, s.log, Plain(s.held, s.quit), r.log[|s.log|]);
    }
  }

  lemma StepWakes(c: Config, s: State, a: Action)
    requires NoLostWakeUp(s)
    ensures NoLostWakeUp(Next(c, s, a))
  {
    var r := Next(c, s, a);
    forall t | 0 <= t < |r.threads| && r.threads[t].Asleep?
      ensures !r.quit && (r.threads[t].call.Dequeue? ==> r.held == [])
    {
      assert r.threads[t] == s.threads[t] || a == Go(t);
    }
  }

  lemma StepKeepsInv(c: Config, s: State, a: Action)
    requires Inv(c, s)
    ensures Inv(c, Next(c, s, a))
  {
    StepAgrees(c, s, a);
    StepWakes(c, s, a);
  }

  lemma InitialInv(c: Config, n: nat)
    ensures Inv(c, Initial(n))
  {
  }

  /** Every run of any number of threads is, return by return, a run of the plain bounded queue. */
  lemma {:induction false} RunsKeepInv(c: Config, n: nat, actions: seq<Action>)
    ensures Inv(c, Run(c, n, actions))
    decreases |actions|
  {
    if actions == [] {
      InitialInv(c, n);
    } else {
      RunsKeepInv(c, n, actions[..|actions| - 1]);
      StepKeepsInv(c, Run(c, n, actions[..|actions| - 1]), actions[|actions| - 1]);
    }
  }

  /** The properties of the queue, in every state of every run. */
  lemma QueueIsSafe(c: Config, n: nat, actions: seq<Action>)
    ensures var s := Run(c, n, actions);
            Enqueued(s.log) == Dequeued(s.log) + s.held && |s.held| <= Size(c) && NoLostWakeUp(s)
  {
    RunsKeepInv(c, n, actions);
    ReplayIsFifo(c, Run(c, n, actions).log);
  }

  /** A call that is not to wait never sleeps, and has not slept either. */
  ghost predicate OnlyWaitersSleep(c: Config, s: State) {
    forall t :: 0 <= t < |s.threads| ==>
      match s.threads[t]
      case Outside => true
      case Ready(call, waited) => waited ==> if call.Enqueue? then c.enqueueWait != NoWait else c.dequeueWait != NoWait
      case Asleep(call) => if call.Enqueue? then c.enqueueWait != NoWait else c.dequeueWait != NoWait
  }

  lemma StepOnlyWaitersSleep(c: Config, s: State, a: Action)
    requires OnlyWaitersSleep(c, s)
    ensures OnlyWaitersSleep(c, Next(c, s, a))
  {
  }

  lemma {:induction false} NoWaitNeverSleeps(c: Config, n: nat, actions: seq<Action>)
    ensures OnlyWaitersSleep(c, Run(c, n, actions))
    decreases |actions|
  {
    if actions != [] {
      var before := actions[..|actions| - 1];
      NoWaitNeverSleeps(c, n, before);
      StepOnlyWaitersSleep(c, Run(c, n, before), actions[|actions| - 1]);
    }
  }

  // ----- producers that sleep with room -----

  ghost predicate ProducerSleeps(s: State) {
    exists t :: 0 <= t < |s.threads| && s.threads[t].Asleep? && s.threads[t].call.Enqueue?
  }

  /** A producer is asleep although there is room for its item. */
  ghost predicate Stuck(c: Config, s: State) {
    |s.held| < Size(c) && ProducerSleeps(s)
  }

  /** The step is a dequeue that takes an item. */
  predicate TakesItem(c: Config, s: State, a: Action) {
    a.Go? && Enabled(c, s, a) && s.threads[a.t].call.Dequeue? && s.held != []
  }

  lemma ProducersSleepOn(c: Config, s: State, a: Action)
    ensures TakesItem(c, s, a) ==> (ProducerSleeps(s) <==> ProducerSleeps(Next(c, s, a)))
    ensures |Next(c, s, a).held| > |s.held| ==> !ProducerSleeps(Next(c, s, a))
  {
    var r := Next(c, s, a);
    if TakesItem(c, s, a) {
      assert forall t :: 0 <= t < |s.threads| && t != a.t ==> r.threads[t] == s.threads[t];
    }
  }

  /** A dequeue does not notify: exactly the dequeue of an item while a producer sleeps leaves it stuck. */
  lemma BecomesStuckIff(c: Config, s: State, a: Action)
    requires Inv(c, s) && !Stuck(c, s)
    ensures Stuck(c, Next(c, s, a)) <==> TakesItem(c, s, a) && ProducerSleeps(s)
  {
    FullMeansFull(c, s);
    ProducersSleepOn(c, s, a);
    hide Inv, Agrees;
    var r := Next(c, s, a);
    forall t | 0 <= t < |r.threads| && r.threads[t].Asleep? ensures s.threads[t] == r.threads[t] || a == Go(t) {
    }
  }

  /** What ends the sleep of a thread: quitting, a wake-up of its own, or an item that somebody adds. */
  lemma WakesIff(c: Config, s: State, a: Action, t: nat)
    requires t < |s.threads| && s.threads[t].Asleep?
    ensures !Next(c, s, a).threads[t].Asleep? <==>
            a == NotifyAll || a == Wake(t) || |Next(c, s, a).held| > |s.held|
    ensures Next(c, s, a).threads[t].Asleep? ==> Next(c, s, a).threads[t] == s.threads[t]
  {
  }

  /** Nobody but one thread, or nobody who waits: then a sleeping producer means a full queue. */
  ghost predicate SleepsOnlyWhenFull(c: Config, s: State) {
    ProducerSleeps(s) ==> |s.held| == Size(c) && !c.enqueueWait.NoWait?
  }

  lemma {:induction false} NeverStuck(c: Config, n: nat, actions: seq<Action>)
    requires n < 2 || c.enqueueWait.NoWait?
    ensures SleepsOnlyWhenFull(c, Run(c, n, actions))
    decreases |actions|
  {
    if actions != [] {
      var before, a := actions[..|actions| - 1], actions[|actions| - 1];
      NeverStuck(c, n, before);
      RunsKeepInv(c, n, before);
      var s := Run(c, n, before);
      FullMeansFull(c, s);
      OneStepNeverStuck(c, s, a);
    }
  }

  lemma OneStepNeverStuck(c: Config, s: State, a: Action)
    requires |s.threads| < 2 || c.enqueueWait.NoWait?
    requires SleepsOnlyWhenFull(c, s) && |s.held| <= Size(c)
    ensures SleepsOnlyWhenFull(c, Next(c, s, a))
  {
    var r := Next(c, s, a);
    if ProducerSleeps(r) {
      var t :| 0 <= t < |r.threads| && r.threads[t].Asleep? && r.threads[t].call.Enqueue?;
      assert s.threads[t].Asleep? || a == Go(t);
    }
  }

  lemma RunMore(c: Config, n: nat, actions: seq<Action>, a: Action)
    ensures Run(c, n, actions + [a]) == Next(c, Run(c, n, actions), a)
  {
    assert (actions + [a])[..|actions|] == actions;
  }

  /** Thread 0 adds k items, which fit. */
  lemma {:induction false} Fill(c: Config, n: nat, k: nat) returns (actions: seq<Action>)
    requires n >= 2 && k <= Size(c)
    ensures var s := Run(c, n, actions);
            |s.held| == k && !s.quit && forall t :: 0 <= t < n ==> s.threads[t].Outside?
  {
    if k == 0 {
      actions := [];
    } else {
      actions := Fill(c, n, k - 1);
      RunMore(c, n, actions, Invoke(0, Enqueue(0)));
      actions := actions + [Invoke(0, Enqueue(0))];
      RunMore(c, n, actions, Go(0));
      actions := actions + [Go(0)];
    }
  }

  /** The full queue, a producer that has to wait, and a dequeue. */
  lemma GetStuck(c: Config, n: nat) returns (actions: seq<Action>)
    requires n >= 2 && !c.enqueueWait.NoWait?
    ensures Stuck(c, Run(c, n, actions))
  {
    actions := Fill(c, n, Size(c));
    hide Run;
    RunMore(c, n, actions, Invoke(0, Enqueue(0)));
    actions := actions + [Invoke(0, Enqueue(0))];
    RunMore(c, n, actions, Go(0));
    actions := actions + [Go(0)];
    RunMore(c, n, actions, Invoke(1, Dequeue));
    actions := actions + [Invoke(1, Dequeue)];
    RunMore(c, n, actions, Go(1));
    actions := actions + [Go(1)];
    assert Run(c, n, actions).threads[0].Asleep?;
  }

  /** Some run leaves a producer asleep with room if and only if there are two threads and producers wait at all. */
  lemma ProducerCanBeStuckIff(c: Config, n: nat)
    ensures (exists actions: seq<Action> :: Stuck(c, Run(c, n, actions))) <==> n >= 2 && !c.enqueueWait.NoWait?
  {
    hide Run;
    if n >= 2 && !c.enqueueWait.NoWait? {
      var actions := GetStuck(c, n);
    } else {
      forall actions: seq<Action> ensures !Stuck(c, Run(c, n, actions)) {
        NeverStuck(c, n, actions);
      }
    }
  }
}
