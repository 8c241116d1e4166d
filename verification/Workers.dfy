/**
 The worker loops over the blocking queue: the thread pool's and, with one worker, the asynchronous
 log sink's. Threads 0 to n-1 of the queue are the workers, the others are clients that add tasks.
 Shutting down clears the running flag and then makes the queue quit.
 */
module Workers {
  import opened QueueMonitor

  /** Where a worker is: at the loop condition, inside dequeue, running its task, past the loop. */
  datatype Pc = Checking | Taking | Running(task: Item) | Exited

  /** late counts, for each worker, the tasks it started after the flag was cleared. */
  datatype Pool = Pool(queue: State, workers: seq<Pc>, flag: bool,
                       started: seq<Item>, finished: seq<Item>, late: seq<nat>)

  datatype Move = Check(w: nat) | Take(w: nat) | Rouse(w: nat) | GiveUp(w: nat) | Finish(w: nat)
                | Client(a: Action) | ClearFlag | Notify

  predicate Possible(c: Config, p: Pool, m: Move)
    requires Shape(p)
  {
    match m
    case Check(w) => w < |p.workers| && p.workers[w].Checking?
    case Take(w) => w < |p.workers| && p.workers[w].Taking? && Enabled(c, p.queue, Go(w))
    case Rouse(w) => w < |p.workers| && Enabled(c, p.queue, Wake(w))
    case GiveUp(w) => w < |p.workers| && Enabled(c, p.queue, Expire(w))
    case Finish(w) => w < |p.workers| && p.workers[w].Running?
    case Client(a) =>
      !a.NotifyAll? && a.t >= |p.workers| && (a.Invoke? ==> a.call.Enqueue?) && Enabled(c, p.queue, a)
    case ClearFlag => p.flag
    case Notify => !p.flag
  }

  /** A worker is inside dequeue exactly when the queue has its thread in that call. */
  predicate Shape(p: Pool) {
    |p.late| == |p.workers| <= |p.queue.threads| &&
    (forall w :: 0 <= w < |p.workers| ==>
       if p.workers[w].Taking? then !p.queue.threads[w].Outside? && p.queue.threads[w].call.Dequeue?
       else p.queue.threads[w].Outside?) &&
    forall t :: |p.workers| <= t < |p.queue.threads| && !p.queue.threads[t].Outside? ==>
      p.queue.threads[t].call.Enqueue?
  }

  function Step(c: Config, p: Pool, m: Move): (r: Pool)
    requires Shape(p)
    ensures |r.workers| == |p.workers|
  {
    if !Possible(c, p, m) then p else
      match m
      case Check(w) =>
        if p.flag then p.(workers := p.workers[w := Taking], queue := Next(c, p.queue, Invoke(w, Dequeue)))
        else p.(workers := p.workers[w := Exited])
      case Take(w) =>
        var result := Result(c, p.queue, Dequeue);
        var q := p.(queue := Next(c, p.queue, Go(w)));
        if result.None? then q
        else if result.value.Got? then
          q.(workers := p.workers[w := Running(result.value.item)], started := p.started + [result.value.item],
             late := if p.flag then p.late else p.late[w := p.late[w] + 1])
        else q.(workers := p.workers[w := Checking])
      case Rouse(w) => p.(queue := Next(c, p.queue, Wake(w)))
      case GiveUp(w) => p.(queue := Next(c, p.queue, Expire(w)), workers := p.workers[w := Checking])
      case Finish(w) =>
        p.(workers := p.workers[w := Checking], finished := p.finished + [p.workers[w].task])
      case Client(a) => p.(queue := Next(c, p.queue, a))
      case ClearFlag => p.(flag := false)
      case Notify => p.(queue := Next(c, p.queue, NotifyAll))
  }

  function Begin(n: nat, clients: nat): (p: Pool)
    ensures Shape(p) && |p.workers| == n
  {
    Pool(Initial(n + clients), seq(n, _ => Checking), true, [], [], seq(n, _ => 0))
  }

  predicate SameCall(x: Thread, y: Thread) {
    x.Outside? == y.Outside? && (!x.Outside? ==> x.call == y.call)
  }

  /** A step of the queue starts or ends no call but its own. */
  lemma OneCallChanges(c: Config, s: State, a: Action)
    requires Enabled(c, s, a)
    ensures var r := Next(c, s, a);
            forall t :: 0 <= t < |s.threads| ==>
              if a.NotifyAll? || a.t != t then SameCall(s.threads[t], r.threads[t])
              else match a
                case Invoke(_, call) => r.threads[t] == Ready(call, false)
                case Go(_) => if Result(c, s, s.threads[t].call).Some? then r.threads[t].Outside?
                              else SameCall(s.threads[t], r.threads[t])
                case Expire(_) => r.threads[t].Outside?
                case _ => SameCall(s.threads[t], r.threads[t])
  {
  }

  lemma StepKeepsShape(c: Config, p: Pool, m: Move)
    requires Shape(p)
    ensures Shape(Step(c, p, m))
  {
    hide Next, Result;
    if Possible(c, p, m) {
      match m {
        case Check(w) => OneCallChanges(c, p.queue, Invoke(w, Dequeue));
        case Take(w) => OneCallChanges(c, p.queue, Go(w));
        case Rouse(w) => OneCallChanges(c, p.queue, Wake(w));
        case GiveUp(w) => OneCallChanges(c, p.queue, Expire(w));
        case Client(a) => OneCallChanges(c, p.queue, a);
        case Notify => OneCallChanges(c, p.queue, NotifyAll);
        case _ =>
      }
    }
  }

  function Run(c: Config, p: Pool, moves: seq<Move>): (r: Pool)
    requires Shape(p)
    ensures Shape(r) && |r.workers| == |p.workers|
  {
    if moves == [] then p else
      var before := Run(c, p, moves[..|moves| - 1]);
      StepKeepsShape(c, before, moves[|moves| - 1]);
      Step(c, before, moves[|moves| - 1])
  }

  // ----- the tasks in hand -----

  function TaskOf(pc: Pc): seq<Item> {
    if pc.Running? then [pc.task] else []
  }

  function InHand(workers: seq<Pc>): multiset<Item> {
    if workers == [] then multiset{}
    else InHand(workers[..|workers| - 1]) + multiset(TaskOf(workers[|workers| - 1]))
  }

  lemma Swap(a: multiset<Item>, b: multiset<Item>, x: multiset<Item>, y: multiset<Item>, l: multiset<Item>)
    requires a + x == b + y
    ensures (a + l) + x == (b + l) + y
  {
    assert (a + l) + x == (a + x) + l;
    assert (b + l) + y == (b + y) + l;
  }

  lemma {:induction false} SetWorker(workers: seq<Pc>, w: nat, pc: Pc)
    requires w < |workers|
    ensures InHand(workers[w := pc]) + multiset(TaskOf(workers[w])) == InHand(workers) + multiset(TaskOf(pc))
  {
    hide TaskOf;
    var n := |workers| - 1;
    var after := workers[w := pc];
    if w == n {
      assert after[..n] == workers[..n];
      Swap(multiset(TaskOf(pc)), multiset(TaskOf(workers[n])), multiset(TaskOf(workers[n])), multiset(TaskOf(pc)),
        InHand(workers[..n]));
    } else {
      SetWorker(workers[..n], w, pc);
      assert after[..n] == workers[..n][w := pc];
      Swap(InHand(after[..n]), InHand(workers[..n]), multiset(TaskOf(workers[w])), multiset(TaskOf(pc)),
        multiset(TaskOf(workers[n])));
    }
  }

  // ----- what every state of every run keeps -----

  /** What was started is what the queue gave out; each started task is finished or in one worker's hands. */
  ghost predicate TasksAccounted(p: Pool) {
    p.started == Dequeued(p.queue.log) &&
    multiset(p.started) == multiset(p.finished) + InHand(p.workers) &&
    (|p.workers| == 1 ==> p.started == p.finished + TaskOf(p.workers[0]))
  }

  /** After the flag is cleared a worker starts one task at most: the one it was already waiting for. */
  ghost predicate FewLate(p: Pool)
    requires Shape(p)
  {
    (p.queue.quit ==> !p.flag) &&
    forall w :: 0 <= w < |p.workers| ==>
      p.late[w] <= (if p.flag then 0 else if p.workers[w].Taking? then 0 else 1)
  }

  ghost predicate PoolInv(c: Config, p: Pool) {
    Shape(p) && Inv(c, p.queue) && TasksAccounted(p) && FewLate(p)
  }

  lemma DequeuedOne(log: seq<Event>, e: Event)
    ensures Dequeued(log + [e]) == Dequeued(log) + if e.Returned? && e.outcome.Got? then [e.outcome.item] else []
  {
    assert (log + [e])[..|log|] == log;
  }

  lemma LogGrows(c: Config, s: State, a: Action)
    ensures Dequeued(Next(c, s, a).log) ==
            if Enabled(c, s, a) && a.Go? && s.threads[a.t].call.Dequeue? && s.held != []
            then Dequeued(s.log) + [s.held[0]] else Dequeued(s.log)
  {
    hide Dequeued;
    var r := Next(c, s, a);
    if |r.log| > |s.log| {
      DequeuedOne(s.log, r.log[|s.log|]);
    }
  }

  /** Giving worker w a new place moves at most its own task to the finished or from the queue. */
  lemma OneWorkerMoves(before: Pool, after: Pool, w: nat, pc: Pc)
    requires TasksAccounted(before) && w < |before.workers| && after.workers == before.workers[w := pc]
    requires after.started == before.started + TaskOf(pc)
    requires after.finished == before.finished + TaskOf(before.workers[w])
    requires TaskOf(pc) == [] || TaskOf(before.workers[w]) == []
    requires after.started == Dequeued(after.queue.log)
    ensures TasksAccounted(after)
  {
    hide TaskOf, InHand, Dequeued;
    SetWorker(before.workers, w, pc);
    var old', new' := TaskOf(before.workers[w]), TaskOf(pc);
    assert multiset(after.finished) + InHand(after.workers) ==
           multiset(before.finished) + (InHand(after.workers) + multiset(old'));
    assert multiset(after.started) == multiset(before.finished) + (InHand(before.workers) + multiset(new'));
    if |before.workers| == 1 {
      assert after.workers[0] == pc;
      assert before.finished + old' + new' == if new' == [] then before.finished + old' else before.finished + new';
    }
  }

  lemma StepAccounts(c: Config, p: Pool, m: Move)
    requires Shape(p) && TasksAccounted(p)
    ensures TasksAccounted(Step(c, p, m))
  {
    hide Dequeued, InHand, TasksAccounted, Next;
    var r := Step(c, p, m);
    if Possible(c, p, m) {
      match m {
        case Check(w) =>
          LogGrows(c, p.queue, Invoke(w, Dequeue));
          StartedIs(p);
          OneWorkerMoves(p, r, w, r.workers[w]);
        case Take(w) =>
          LogGrows(c, p.queue, Go(w));
          StartedIs(p);
          if r.workers != p.workers {
            OneWorkerMoves(p, r, w, r.workers[w]);
          } else {
            NothingMoves(p, r);
          }
        case Rouse(w) =>
          LogGrows(c, p.queue, Wake(w));
          NothingMoves(p, r);
        case GiveUp(w) =>
          LogGrows(c, p.queue, Expire(w));
          StartedIs(p);
          OneWorkerMoves(p, r, w, r.workers[w]);
        case Finish(w) =>
          StartedIs(p);
          OneWorkerMoves(p, r, w, r.workers[w]);
        case Client(a) =>
          LogGrows(c, p.queue, a);
          NothingMoves(p, r);
        case ClearFlag =>
          NothingMoves(p, r);
        case Notify =>
          LogGrows(c, p.queue, NotifyAll);
          NothingMoves(p, r);
      }
    }
  }

  lemma StartedIs(p: Pool)
    requires TasksAccounted(p)
    ensures p.started == Dequeued(p.queue.log)
  {
  }

  lemma NothingMoves(before: Pool, after: Pool)
    requires TasksAccounted(before) && after.workers == before.workers
    requires after.started == before.started && after.finished == before.finished
    requires Dequeued(after.queue.log) == Dequeued(before.queue.log)
    ensures TasksAccounted(after)
  {
  }

  lemma StepFewLate(c: Config, p: Pool, m: Move)
    requires Shape(p) && FewLate(p)
    ensures Shape(Step(c, p, m)) && FewLate(Step(c, p, m))
  {
    StepKeepsShape(c, p, m);
  }

  lemma StepQueue(c: Config, p: Pool, m: Move)
    requires Shape(p) && Inv(c, p.queue)
    ensures Inv(c, Step(c, p, m).queue)
  {
    hide Inv, Next;
    match m {
      case Check(w) => StepKeepsInv(c, p.queue, Invoke(w, Dequeue));
      case Take(w) => StepKeepsInv(c, p.queue, Go(w));
      case Rouse(w) => StepKeepsInv(c, p.queue, Wake(w));
      case GiveUp(w) => StepKeepsInv(c, p.queue, Expire(w));
      case Client(a) => StepKeepsInv(c, p.queue, a);
      case Notify => StepKeepsInv(c, p.queue, NotifyAll);
      case _ =>
    }
  }

  lemma {:induction false} NoTasksAtFirst(workers: seq<Pc>)
    requires forall w :: 0 <= w < |workers| ==> workers[w].Checking?
    ensures InHand(workers) == multiset{}
  {
    if workers != [] {
      NoTasksAtFirst(workers[..|workers| - 1]);
    }
  }

  lemma BeginInv(c: Config, n: nat, clients: nat)
    ensures PoolInv(c, Begin(n, clients))
  {
    InitialInv(c, n + clients);
    NoTasksAtFirst(Begin(n, clients).workers);
  }

  lemma {:induction false} RunsKeepPoolInv(c: Config, n: nat, clients: nat, moves: seq<Move>)
    ensures PoolInv(c, Run(c, Begin(n, clients), moves))
    decreases |moves|
  {
    hide Step, Inv, TasksAccounted, FewLate;
    if moves == [] {
      BeginInv(c, n, clients);
    } else {
      var before := moves[..|moves| - 1];
      RunsKeepPoolInv(c, n, clients, before);
      StepKeepsPoolInv(c, Run(c, Begin(n, clients), before), moves[|moves| - 1]);
    }
  }

  // ----- the properties -----

  /** Tasks are started in the order they were accepted, each at most once, and none gets lost on the way. */
  lemma TasksStartOnceInOrder(c: Config, n: nat, clients: nat, moves: seq<Move>)
    ensures var p := Run(c, Begin(n, clients), moves);
            Enqueued(p.queue.log) == p.started + p.queue.held &&
            multiset(p.started) == multiset(p.finished) + InHand(p.workers)
  {
    RunsKeepPoolInv(c, n, clients, moves);
    ReplayIsFifo(c, Run(c, Begin(n, clients), moves).queue.log);
  }

  /** With one worker, as in the log sink pool, what was delivered is always a prefix of what was accepted. */
  lemma OneWorkerDeliversInOrder(c: Config, clients: nat, moves: seq<Move>)
    ensures var p := Run(c, Begin(1, clients), moves);
            p.finished <= p.started <= Enqueued(p.queue.log) && |p.started| <= |p.finished| + 1
  {
    RunsKeepPoolInv(c, 1, clients, moves);
    ReplayIsFifo(c, Run(c, Begin(1, clients), moves).queue.log);
  }

  lemma OneLateTaskEach(c: Config, n: nat, clients: nat, moves: seq<Move>, w: nat)
    requires w < n
    ensures var p := Run(c, Begin(n, clients), moves); |p.late| == n && p.late[w] <= if p.flag then 0 else 1
  {
    RunsKeepPoolInv(c, n, clients, moves);
  }

  /** Nobody leaves while the flag is up, and the queue is not told to quit either. */
  ghost predicate AllStay(p: Pool) {
    p.flag ==> !p.queue.quit && forall w :: 0 <= w < |p.workers| ==> !p.workers[w].Exited?
  }

  lemma StepAllStay(c: Config, p: Pool, m: Move)
    requires Shape(p) && AllStay(p)
    ensures AllStay(Step(c, p, m))
  {
  }

  lemma {:induction false} RunsAllStay(c: Config, n: nat, clients: nat, moves: seq<Move>)
    ensures AllStay(Run(c, Begin(n, clients), moves))
    decreases |moves|
  {
    hide Step, AllStay;
    if moves == [] {
      assert AllStay(Begin(n, clients)) by {
        BeginAllStay(n, clients);
      }
    } else {
      RunsAllStay(c, n, clients, moves[..|moves| - 1]);
      StepAllStay(c, Run(c, Begin(n, clients), moves[..|moves| - 1]), moves[|moves| - 1]);
    }
  }

  lemma BeginAllStay(n: nat, clients: nat)
    ensures AllStay(Begin(n, clients))
  {
  }

  /**
   While the flag is up every worker is at work: it runs a task, is about to look for one, or sleeps
   on a queue without items.
   */
  lemma WorkersStay(c: Config, n: nat, clients: nat, moves: seq<Move>, w: nat)
    requires w < n && Run(c, Begin(n, clients), moves).flag
    ensures var p := Run(c, Begin(n, clients), moves);
            Possible(c, p, Finish(w)) || Possible(c, p, Check(w)) || Possible(c, p, Take(w)) ||
            (p.queue.threads[w].Asleep? && p.queue.held == [])
  {
    RunsKeepPoolInv(c, n, clients, moves);
    RunsAllStay(c, n, clients, moves);
    hide Run, TasksAccounted, FewLate, Agrees;
  }

  // ----- shutting down -----

  function Weight(pc: Pc): nat {
    match pc
    case Exited => 0
    case Checking => 1
    case Running(_) => 2
    case Taking => 3
  }

  /** The worker that takes the step, if one does. */
  predicate StepOf(m: Move, w: nat) {
    match m
    case Client(_) => false
    case ClearFlag => false
    case Notify => false
    case _ => m.w == w
  }

  /** Once the queue was told to quit each step of a worker takes it nearer to its exit, and nothing moves it back. */
  lemma StepsWindDown(c: Config, p: Pool, m: Move, w: nat)
    requires PoolInv(c, p) && p.queue.quit && w < |p.workers|
    ensures var r := Step(c, p, m);
            r.queue.quit &&
            if StepOf(m, w) && Possible(c, p, m) then Weight(r.workers[w]) < Weight(p.workers[w])
            else r.workers[w] == p.workers[w]
  {
    hide Inv, TasksAccounted;
    assert NoLostWakeUp(p.queue) by {
      OpenInv(c, p.queue);
    }
  }

  lemma OpenInv(c: Config, s: State)
    requires Inv(c, s)
    ensures NoLostWakeUp(s)
  {
  }

  /** How many of the moves are steps that worker w really takes. */
  function StepsOf(c: Config, p: Pool, moves: seq<Move>, w: nat): nat
    requires Shape(p)
  {
    if moves == [] then 0 else
      var before := moves[..|moves| - 1];
      var m := moves[|moves| - 1];
      StepsOf(c, p, before, w) + if StepOf(m, w) && Possible(c, Run(c, p, before), m) then 1 else 0
  }

  lemma {:induction false} ShutdownEnds(c: Config, p: Pool, moves: seq<Move>, w: nat)
    requires PoolInv(c, p) && p.queue.quit && w < |p.workers|
    ensures var r := Run(c, p, moves);
            PoolInv(c, r) && r.queue.quit &&
            StepsOf(c, p, moves, w) + Weight(r.workers[w]) <= Weight(p.workers[w])
    decreases |moves|
  {
    hide Inv, TasksAccounted, FewLate, Step, Possible;
    if moves != [] {
      var before, m := moves[..|moves| - 1], moves[|moves| - 1];
      ShutdownEnds(c, p, before, w);
      var q := Run(c, p, before);
      StepsWindDown(c, q, m, w);
      StepKeepsPoolInv(c, q, m);
    }
  }

  lemma StepKeepsPoolInv(c: Config, p: Pool, m: Move)
    requires PoolInv(c, p)
    ensures PoolInv(c, Step(c, p, m))
  {
    hide Step, Inv, TasksAccounted, FewLate;
    StepQueue(c, p, m);
    StepAccounts(c, p, m);
    StepFewLate(c, p, m);
  }

  lemma NobodyIsStuck(c: Config, p: Pool, w: nat)
    requires PoolInv(c, p) && p.queue.quit && w < |p.workers|
    ensures p.workers[w].Exited? <==> forall m :: StepOf(m, w) ==> !Possible(c, p, m)
  {
    hide Agrees, TasksAccounted;
    if p.workers[w].Checking? {
      assert StepOf(Check(w), w) && Possible(c, p, Check(w));
    } else if p.workers[w].Running? {
      assert StepOf(Finish(w), w) && Possible(c, p, Finish(w));
    } else if p.workers[w].Taking? {
      assert StepOf(Take(w), w) && Possible(c, p, Take(w));
    }
  }

  /**
   However a run goes on once the queue was told to quit, with clients still calling, a worker takes
   at most three more steps, and it has exited exactly when it can take none.
   */
  lemma WorkersExit(c: Config, n: nat, clients: nat, moves: seq<Move>, more: seq<Move>, w: nat)
    requires Run(c, Begin(n, clients), moves).queue.quit && w < n
    ensures var p := Run(c, Begin(n, clients), moves);
            var r := Run(c, p, more);
            StepsOf(c, p, more, w) <= 3 &&
            (r.workers[w].Exited? <==> forall m :: StepOf(m, w) ==> !Possible(c, r, m))
  {
    hide PoolInv, Possible, Step;
    RunsKeepPoolInv(c, n, clients, moves);
    var p := Run(c, Begin(n, clients), moves);
    ShutdownEnds(c, p, more, w);
    NobodyIsStuck(c, Run(c, p, more), w);
  }
}
