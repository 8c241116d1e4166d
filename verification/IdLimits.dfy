/**
 Where the guarantees of the concurrent id engine end: exactly when a call can fail for want of
 room, and exactly when a crash can make a restarted engine repeat an id.
 */
module IdLimits {
  import opened IdConcurrent

  ghost predicate Reachable(c: Config, s: State) {
    exists run: seq<State> :: IsRun(c, run) && run[|run| - 1] == s
  }

  lemma ReachInit(c: Config)
    ensures Reachable(c, Init(c))
  {
    assert IsRun(c, [Init(c)]);
  }

  lemma ReachAct(c: Config, s: State, t: nat)
    requires Reachable(c, s) && CanAct(s, t)
    ensures Reachable(c, Act(c, s, t))
  {
    hide Act;
    var run: seq<State> :| IsRun(c, run) && run[|run| - 1] == s;
    var longer := run + [Act(c, s, t)];
    forall i | 0 <= i < |longer| - 1 ensures Next(c, longer[i], longer[i + 1]) {
      if i < |run| - 1 {
        assert Next(c, run[i], run[i + 1]);
      }
    }
    assert IsRun(c, longer) && longer[|longer| - 1] == Act(c, s, t);
  }

  ghost predicate Quiet(c: Config, s: State) {
    Reachable(c, s) && |s.pcs| == c.threads && forall t :: 0 <= t < |s.pcs| ==> s.pcs[t].Idle?
  }

  /** Thread t, its id not below the valve and the lock free, goes all the way through reallocValve. */
  lemma SlowPath(c: Config, s: State, t: nat) returns (s': State)
    requires c.Valid() && Reachable(c, s) && t < |s.pcs| && LockFree(s)
    requires s.pcs[t].Fetched? && s.valve <= s.pcs[t].id && s.valve <= s.current
    ensures Reachable(c, s')
    ensures s'.current == s.current && s'.valve == s.valve + c.size && s'.pcs == s.pcs[t := Idle]
    ensures if s.pcs[t].id < s'.valve then s'.issued == s.issued + [s.pcs[t].id] && s'.failed == s.failed
            else s'.failed == s.failed + 1
  {
    var id := s.pcs[t].id;
    var path := [Fetched(id), Waiting(id), Holding(id), Raising(id), Persisting(id), Releasing(id),
                 Rechecking(id), Idle];
    s' := s;
    var k := 0;
    while k < 7
      invariant 0 <= k <= 7
      invariant Reachable(c, s') && s'.current == s.current && s'.pcs == s.pcs[t := path[k]]
      invariant s'.valve == if k < 4 then s.valve else s.valve + c.size
      invariant if k < 7 then s'.issued == s.issued && s'.failed == s.failed
                else if id < s'.valve then s'.issued == s.issued + [id] && s'.failed == s.failed
                else s'.failed == s.failed + 1
    {
      ReachAct(c, s', t);
      s' := Act(c, s', t);
      k := k + 1;
    }
  }

  /** Thread 0 calls spawnId while no other thread does anything. */
  lemma CallAlone(c: Config, s: State) returns (s': State)
    requires c.Valid() && c.threads >= 1 && Quiet(c, s)
    ensures Quiet(c, s') && s'.current == s.current + c.step
    ensures s'.valve == if s.current < s.valve then s.valve else s.valve + c.size
    ensures if s.current < s'.valve then s'.issued == s.issued + [s.current] && s'.failed == s.failed
            else s'.failed == s.failed + 1
  {
    ReachAct(c, s, 0);
    s' := Act(c, s, 0);
    if s.current < s.valve {
      ReachAct(c, s', 0);
      s' := Act(c, s', 0);
    } else {
      s' := SlowPath(c, s', 0);
    }
  }

  /** After n calls in a row the valve is a block bound, the first one above the last id if none failed. */
  lemma {:induction false} CallsInARow(c: Config, n: nat) returns (s: State, q: nat)
    requires c.Valid() && c.threads >= 1 && n >= 1
    ensures Quiet(c, s) && s.current == Ticket(c, n)
    ensures s.valve == c.base + q * c.size && s.valve - c.size <= Ticket(c, n - 1)
    ensures s.failed > 0 || (Ticket(c, n - 1) < s.valve && forall k: nat :: k < n ==> Ticket(c, k) in s.issued)
    ensures c.step <= c.size ==> s.failed == 0
  {
    TicketsGrow(c, n - 1, n);
    if n == 1 {
      ReachInit(c);
      s := CallAlone(c, Init(c));
      q := 1;
      assert s.issued == [] + [Ticket(c, 0)];
      forall k: nat | k < 1 ensures Ticket(c, k) in s.issued {
        assert k == 0;
      }
    } else {
      var p, r := CallsInARow(c, n - 1);
      TicketsGrow(c, n - 2, n - 1);
      s := CallAlone(c, p);
      q := if p.current < p.valve then r else r + 1;
      Neighbours(r, c.size);
      if p.failed == 0 && s.failed == 0 {
        assert s.issued == p.issued + [Ticket(c, n - 1)];
        forall k: nat | k < n ensures Ticket(c, k) in s.issued {
          if k < n - 1 { assert Ticket(c, k) in p.issued; }
        }
      }
    }
  }

  /** The first n threads each do their fetch_add. */
  lemma {:induction false} FetchAll(c: Config, s: State, n: nat) returns (s': State)
    requires c.Valid() && Quiet(c, s) && n <= c.threads
    ensures Reachable(c, s') && s'.current == s.current + n * c.step && s'.valve == s.valve && s'.failed == s.failed
    ensures |s'.pcs| == c.threads
    ensures forall t :: 0 <= t < c.threads ==> s'.pcs[t] == if t < n then Fetched(s.current + t * c.step) else Idle
  {
    s' := s;
    if n > 0 {
      s' := FetchAll(c, s, n - 1);
      ReachAct(c, s', n - 1);
      s' := Act(c, s', n - 1);
    }
  }

  /** All threads fetch just past the valve: when the last id is a block above it, its call fails. */
  lemma BurstFails(c: Config, s: State) returns (s': State)
    requires c.Valid() && c.threads >= 1 && Quiet(c, s)
    requires s.valve <= s.current && s.valve + c.size <= s.current + (c.threads - 1) * c.step
    ensures Reachable(c, s') && s'.failed > 0
  {
    var n := c.threads;
    s' := FetchAll(c, s, n);
    assert (n - 1) * c.step >= 0;
    assert n * c.step == (n - 1) * c.step + c.step;
    s' := SlowPath(c, s', n - 1);
  }

  /** A number of calls after which the next id is above block m and the burst overshoots the block. */
  lemma BurstPoint(S: int, P: int, N: nat) returns (n: nat, m: nat)
    requires S >= 1 && P >= 1 && N * S > P
    ensures n >= 1 && m >= 1
    ensures (m - 1) * P <= (n - 1) * S < m * P <= n * S
    ensures (m + 1) * P <= n * S + (N - 1) * S
  {
    var last := (N - 1) * S;
    Neighbours(N, S);
    assert N >= 1;
    if last >= P {
      n := FirstMultiple(S, P);
      m := 1;
    } else {
      var d := N * S - P;
      m := FirstMultiple(d, S - d);
      n := m * N;
      BurstArithmetic(S, P, N, d, m);
    }
  }

  lemma FirstMultiple(d: int, bound: int) returns (m: nat)
    requires d >= 1 && bound >= 1
    ensures m >= 1 && (m - 1) * d < bound <= m * d
  {
    m := 1;
    while m * d < bound
      invariant m >= 1 && (m - 1) * d < bound
      decreases bound - m * d
    {
      assert (m + 1) * d == m * d + d;
      m := m + 1;
    }
  }

  lemma Neighbours(a: int, b: int)
    ensures (a - 1) * b == a * b - b && (a + 1) * b == a * b + b
  {
  }

  lemma Product(m: int, N: int, S: int, P: int, d: int)
    requires N * S == P + d
    ensures m * N * S == m * P + m * d
  {
    assert m * N * S == m * (N * S);
    assert m * (P + d) == m * P + m * d;
  }

  lemma BurstArithmetic(S: int, P: int, N: nat, d: int, m: nat)
    requires S >= 1 && P >= 1 && N >= 1 && d == N * S - P && (N - 1) * S < P && 1 <= d < S
    requires m >= 1 && (m - 1) * d < S - d <= m * d
    ensures m * N >= 1
    ensures (m - 1) * P <= (m * N - 1) * S < m * P <= m * N * S
    ensures (m + 1) * P <= m * N * S + (N - 1) * S
  {
    Scale(1, m, N);
    Scale(1, m, d);
    Scale(1, N, S);
    Neighbours(N, S);
    Neighbours(m, P);
    Neighbours(m, d);
    Neighbours(m * N, S);
    Product(m, N, S, P, d);
    BurstBounds(m * N * S, m * P, m * d, N * S, S, P, d);
  }

  /** The same with the products named. */
  lemma BurstBounds(mNS: int, mP: int, md: int, NS: int, S: int, P: int, d: int)
    requires mNS == mP + md && NS == P + d && NS >= S && d <= md && md - d < S - d <= md
    ensures mP - P <= mNS - S < mP <= mNS && mP + P <= mNS + (NS - S)
  {
  }

  lemma FailureWithoutRoom(c: Config) returns (s: State)
    requires c.Valid() && c.threads * c.step > c.size
    ensures Reachable(c, s) && s.failed > 0
  {
    assert c.threads * c.step > 0;
    var n, m := BurstPoint(c.step, c.size, c.threads);
    var q;
    s, q := CallsInARow(c, n);
    if s.failed == 0 {
      assert (q - 1) * c.size == q * c.size - c.size;
      assert q == m by {
        if q < m { Scale(q, m - 1, c.size); }
        if m < q { Scale(m, q - 1, c.size); }
      }
      assert (m + 1) * c.size == m * c.size + c.size;
      s := BurstFails(c, s);
    }
  }

  /**
   No call of spawnId ever fails for want of room, in any interleaving of the threads, if and only
   if one step per thread fits into a block.
   */
  lemma NoFailureIffRoom(c: Config)
    requires c.Valid()
    ensures (forall run: seq<State>, i: nat :: IsRun(c, run) && i < |run| ==> run[i].failed == 0) <==>
            c.threads * c.step <= c.size
  {
    hide IsRun;
    if c.threads * c.step <= c.size {
      forall run: seq<State>, i: nat | IsRun(c, run) && i < |run| ensures run[i].failed == 0 {
        RunsKeepFullInv(c, run, i);
      }
    } else {
      var s := FailureWithoutRoom(c);
      var run := RunTo(c, s);
      assert run[|run| - 1].failed > 0;
    }
  }

  lemma RunTo(c: Config, s: State) returns (run: seq<State>)
    requires Reachable(c, s)
    ensures IsRun(c, run) && run != [] && run[|run| - 1] == s
  {
    run :| IsRun(c, run) && run[|run| - 1] == s;
  }

  // ----- crashes -----

  /** An engine that starts after a crash reads the row and goes on from there (init). */
  function AfterCrash(c: Config, s: State): Config {
    c.(base := s.stored)
  }

  /** The quick way through spawnId, when the counter is below the valve. */
  function FastCall(c: Config, s: State, t: nat): State
    requires t < |s.pcs| && s.pcs[t].Idle?
  {
    Act(c, Act(c, s, t), t)
  }

  lemma NothingPendingIsSafe(c: Config, s: State)
    requires c.Valid() && Inv(c, s) && !WritePending(s)
    ensures IssuedBelowRow(s)
  {
  }

  /**
   Every id issued so far, and by one more quick call, is below the row that a restart would go on
   from, if and only if no thread is between raising the valve and writing the row.
   */
  lemma CrashIsSafeIffNothingPending(c: Config, run: seq<State>, i: nat, t: nat)
    requires c.Valid() && IsRun(c, run) && i < |run|
    requires t < |run[i].pcs| && run[i].pcs[t].Idle? && run[i].current < run[i].valve
    ensures IssuedBelowRow(FastCall(c, run[i], t)) <==> !WritePending(run[i])
  {
    RunsKeepInv(c, run, i);
    var s := run[i];
    var s' := FastCall(c, s, t);
    assert s'.issued == s.issued + [s.current] && s'.stored == s.stored;
    if WritePending(s) {
      assert s'.issued[|s.issued|] == s.current >= s.stored;
    } else {
      NothingPendingIsSafe(c, s);
    }
  }

  /** From a safe state the restarted engine, in any interleaving, hands out only new ids. */
  lemma SafeRestartIsFresh(c: Config, s: State, run: seq<State>, i: nat)
    requires c.Valid() && IssuedBelowRow(s)
    requires IsRun(AfterCrash(c, s), run) && i < |run|
    ensures forall id :: id in run[i].issued ==> id !in s.issued
  {
    hide IsRun;
    IdsAreSafe(AfterCrash(c, s), run, i);
  }

  lemma MultipleLeavesNothing(k: nat, d: int)
    requires d >= 1
    ensures k * d % d == 0
    decreases k
  {
    if k > 0 {
      MultipleLeavesNothing(k - 1, d);
      Neighbours(k, d);
      assert (k * d - d) % d == k * d % d by {
        AddOne(k * d - d, d);
      }
    }
  }

  lemma AddOne(x: int, d: int)
    requires d >= 1
    ensures (x + d) % d == x % d
  {
    var q := x / d;
    assert x + d == (q + 1) * d + x % d;
    SameQuotient((x + d) / d, q + 1, (x + d) % d, x % d, d);
  }

  lemma SameQuotient(a: int, b: int, r: int, t: int, d: int)
    requires d >= 1 && a * d + r == b * d + t && 0 <= r < d && 0 <= t < d
    ensures r == t
  {
    if a < b {
      Scale(1, b - a, d);
    } else if b < a {
      Scale(1, a - b, d);
    }
  }

  /** Thread 0 calls while the others stand where they are, none of them with the lock. */
  lemma CallBeside(c: Config, s: State) returns (s': State)
    requires c.Valid() && Reachable(c, s) && LockFree(s) && |s.pcs| >= 1 && s.pcs[0].Idle? && s.valve <= s.current
    ensures Reachable(c, s') && s'.current == s.current + c.step && s'.valve == s.valve + c.size && s'.pcs == s.pcs
  {
    ReachAct(c, s, 0);
    s' := SlowPath(c, Act(c, s, 0), 0);
  }

  /** Thread 1 has fetched id number n, which is not below the valve; everybody else is idle. */
  lemma FetchBeside(c: Config, n: nat) returns (s: State, q: nat)
    requires c.Valid() && c.threads >= 2 && n >= 1
    ensures Reachable(c, s) && |s.pcs| == c.threads
    ensures forall t :: 0 <= t < c.threads ==> s.pcs[t] == if t == 1 then Fetched(Ticket(c, n)) else Idle
    ensures s.current == Ticket(c, n) + c.step
    ensures s.valve == c.base + q * c.size && s.valve - c.size <= Ticket(c, n) - c.step
  {
    TicketsGrow(c, n - 1, n);
    s, q := CallsInARow(c, n);
    ReachAct(c, s, 1);
    s := Act(c, s, 1);
  }

  /** With two threads every id is issued in some run, however large the step: one raises the valve for the other. */
  lemma EveryIdIsIssued(c: Config, n: nat) returns (s: State)
    requires c.Valid() && c.threads >= 2
    ensures Reachable(c, s) && Ticket(c, n) in s.issued
  {
    if n == 0 {
      ReachInit(c);
      s := CallAlone(c, Init(c));
      assert s.issued == [] + [Ticket(c, 0)];
    } else {
      var q;
      s, q := FetchBeside(c, n);
      ghost var pcs := s.pcs;
      while s.valve <= Ticket(c, n)
        invariant Reachable(c, s) && s.pcs == pcs && s.current > Ticket(c, n)
        decreases Ticket(c, n) - s.valve
      {
        s := CallBeside(c, s);
      }
      ReachAct(c, s, 1);
      var issued := s.issued + [s.pcs[1].id];
      s := Act(c, s, 1);
      assert s.issued == issued && issued[|issued| - 1] == Ticket(c, n);
    }
  }

  /**
   An id issued at or above the row can be handed out again after a crash if and only if it is a
   whole number of steps above it. A single thread issues no such id, see AloneIsSafe.
   */
  lemma UnsafeRestartRepeatsIff(c: Config, s: State, id: int)
    requires c.Valid() && c.threads >= 1 && (c.step <= c.size || c.threads >= 2 || Reachable(c, s))
    requires id in s.issued && id >= s.stored
    ensures (exists run: seq<State> :: IsRun(AfterCrash(c, s), run) && id in run[|run| - 1].issued) <==>
            (id - s.stored) % c.step == 0
  {
    var c' := AfterCrash(c, s);
    if c.step > c.size && c.threads < 2 {
      ReachableIsSafe(c, s);
    } else if (id - s.stored) % c.step == 0 {
      var run := Repeats(c, s, id);
    }
    forall run: seq<State> | IsRun(c', run) && id in run[|run| - 1].issued ensures (id - s.stored) % c.step == 0 {
      RunsKeepInv(c', run, |run| - 1);
      var k: nat :| Ticket(c', k) == id;
      MultipleLeavesNothing(k, c.step);
    }
  }

  lemma ReachableIsSafe(c: Config, s: State)
    requires c.Valid() && c.threads < 2 && Reachable(c, s)
    ensures IssuedBelowRow(s)
  {
    var run := RunTo(c, s);
    AloneIsSafe(c, run, |run| - 1);
  }

  lemma Repeats(c: Config, s: State, id: int) returns (run: seq<State>)
    requires c.Valid() && c.threads >= 1 && (c.step <= c.size || c.threads >= 2)
    requires id >= s.stored && (id - s.stored) % c.step == 0
    ensures IsRun(AfterCrash(c, s), run) && run != [] && id in run[|run| - 1].issued
  {
    hide IsRun;
    var c' := AfterCrash(c, s);
    var k := (id - s.stored) / c.step;
    assert Ticket(c', k) == id;
    var r;
    if c.threads >= 2 {
      r := EveryIdIsIssued(c', k);
    } else {
      var q;
      r, q := CallsInARow(c', k + 1);
    }
    run := RunTo(c', r);
  }

  // ----- which engines a crash can hurt -----

  /**
   An id at or above the row is issued exactly by a thread that compares such an id with a valve that
   was raised and is not written yet.
   */
  lemma UnsafeStepIff(c: Config, s: State, t: nat)
    requires c.Valid() && Inv(c, s) && CanAct(s, t) && IssuedBelowRow(s)
    ensures !IssuedBelowRow(Act(c, s, t)) <==>
            (s.pcs[t].Fetched? || s.pcs[t].Rechecking?) && s.stored <= s.pcs[t].id < s.valve
    ensures !IssuedBelowRow(Act(c, s, t)) ==> WritePending(s)
  {
    hide IdsDistinct, LockHeldOnce;
    var s' := Act(c, s, t);
    if (s.pcs[t].Fetched? || s.pcs[t].Rechecking?) && s.pcs[t].id < s.valve {
      assert s'.issued == s.issued + [s.pcs[t].id];
      assert s'.issued[|s.issued|] == s.pcs[t].id;
    }
  }

  /** A thread that is alone has nobody to issue ids while its write is pending. */
  lemma {:induction false} AloneIsSafe(c: Config, run: seq<State>, i: nat)
    requires c.Valid() && IsRun(c, run) && i < |run| && c.threads < 2
    ensures IssuedBelowRow(run[i])
  {
    hide Inv, Act, IssuedBelowRow;
    if i == 0 {
      NothingIssued(c);
    } else {
      AloneIsSafe(c, run, i - 1);
      RunsKeepInv(c, run, i - 1);
      assert Next(c, run[i - 1], run[i - 1 + 1]);
      var t: nat :| CanAct(run[i - 1], t) && run[i] == Act(c, run[i - 1], t);
      UnsafeStepIff(c, run[i - 1], t);
      if !run[i - 1].pcs[t].Persisting? {
        AloneIsNotPending(c, run[i - 1], t);
      }
    }
  }

  lemma NothingIssued(c: Config)
    ensures IssuedBelowRow(Init(c))
  {
  }

  lemma AloneIsNotPending(c: Config, s: State, t: nat)
    requires Inv(c, s) && c.threads < 2 && t < |s.pcs| && !s.pcs[t].Persisting?
    ensures !WritePending(s)
  {
  }

  lemma NothingPends(c: Config, s: State)
    requires c.Valid() && Reachable(c, s) && forall t :: 0 <= t < |s.pcs| ==> !s.pcs[t].Persisting?
    ensures s.stored == s.valve
  {
    var run := RunTo(c, s);
    RunsKeepInv(c, run, |run| - 1);
  }

  function BlockBound(c: Config, q: nat): int {
    c.base + q * c.size
  }

  lemma BoundIsLow(c: Config, q: nat)
    requires c.Valid() && BlockBound(c, q) - c.size <= Ticket(c, c.size) - c.step
    ensures q <= c.step
  {
    if q > c.step {
      Neighbours(c.step, c.size);
      Scale(c.step + 1, q, c.size);
    }
  }

  /** The id of the fetch_add whose number is the size of a block is itself a block bound. */
  lemma BoundsMeetTicket(c: Config, q: nat)
    requires c.Valid() && q <= c.step
    ensures q == c.step ==> BlockBound(c, q) == Ticket(c, c.size)
    ensures q < c.step ==> BlockBound(c, q + 1) == BlockBound(c, q) + c.size <= Ticket(c, c.size)
  {
    Neighbours(q, c.size);
    if q < c.step {
      Scale(q + 1, c.step, c.size);
    }
  }

  /**
   Thread 1 has fetched an id, and the valve and the row have come up to just that id, the next one
   that a restart hands out.
   */
  lemma RowAtFetched(c: Config) returns (s: State)
    requires c.Valid() && c.threads >= 2
    ensures Reachable(c, s) && |s.pcs| == c.threads && s.stored == s.valve < s.current
    ensures forall t :: 0 <= t < c.threads ==> s.pcs[t] == if t == 1 then Fetched(s.stored) else Idle
  {
    var q: nat;
    s, q := FetchBeside(c, c.size);
    assert s.valve == BlockBound(c, q);
    BoundIsLow(c, q);
    hide Ticket, BlockBound, Reachable;
    ghost var pcs, id := s.pcs, Ticket(c, c.size);
    BoundsMeetTicket(c, q);
    while s.valve < id
      invariant Reachable(c, s) && s.pcs == pcs && s.current > id
      invariant q <= c.step && s.valve == BlockBound(c, q) <= id
      decreases id - s.valve
    {
      BoundsMeetTicket(c, q);
      s := CallBeside(c, s);
      q := q + 1;
      BoundsMeetTicket(c, q);
    }
    NothingPends(c, s);
  }

  /**
   From there thread 0 raises the valve for its own id, and thread 1 goes on before the row is written:
   it issues the id in the row.
   */
  lemma IssueTheRow(c: Config) returns (s: State)
    requires c.Valid() && c.threads >= 2
    ensures Reachable(c, s) && s.stored in s.issued
  {
    var u := RowAtFetched(c);
    var path := [0, 0, 0, 0, 0, 1];
    s := u;
    var k := 0;
    while k < 6
      invariant 0 <= k <= 6 && Reachable(c, s) && |s.pcs| == c.threads && s.stored == u.stored
      invariant s.valve == if k < 5 then u.valve else u.valve + c.size
      invariant s.current == if k == 0 then u.current else u.current + c.step
      invariant forall t :: 2 <= t < |s.pcs| ==> s.pcs[t].Idle?
      invariant k < 6 ==> s.pcs[1] == Fetched(u.stored)
      invariant var id := u.current;
                s.pcs[0] == if k == 0 then Idle else if k == 1 then Fetched(id) else if k == 2 then Waiting(id)
                            else if k == 3 then Holding(id) else if k == 4 then Raising(id) else Persisting(id)
      invariant k == 6 ==> u.stored in s.issued
    {
      ReachAct(c, s, path[k]);
      s := Act(c, s, path[k]);
      k := k + 1;
    }
  }

  /** A call right after the restart gets the id in the row. */
  lemma RestartIssuesRow(c: Config, s: State) returns (run: seq<State>)
    requires c.Valid() && c.threads >= 1
    ensures IsRun(AfterCrash(c, s), run) && run != [] && s.stored in run[|run| - 1].issued
  {
    hide IsRun;
    var c' := AfterCrash(c, s);
    ReachInit(c');
    var r := CallAlone(c', Init(c'));
    run := RunTo(c', r);
    assert r.issued == [] + [s.stored];
  }

  /** Some run of the engine, cut by a crash, and some run of the restarted engine issue the same id. */
  ghost predicate CrashRepeats(c: Config, run: seq<State>, again: seq<State>, id: int) {
    IsRun(c, run) && IsRun(AfterCrash(c, run[|run| - 1]), again) &&
    id in run[|run| - 1].issued && id in again[|again| - 1].issued
  }

  /** A crash can make a restarted engine repeat an id if and only if two threads use the engine. */
  lemma CrashRepeatsIffTwoThreads(c: Config)
    requires c.Valid()
    ensures (exists run: seq<State>, again: seq<State>, id: int :: CrashRepeats(c, run, again, id)) <==> c.threads >= 2
  {
    hide IsRun;
    if c.threads >= 2 {
      var s := IssueTheRow(c);
      var run := RunTo(c, s);
      var again := RestartIssuesRow(c, s);
      assert CrashRepeats(c, run, again, s.stored);
    } else {
      forall run: seq<State>, again: seq<State>, id: int ensures !CrashRepeats(c, run, again, id) {
        if CrashRepeats(c, run, again, id) {
          NotEmpty(c, run);
          NotEmpty(AfterCrash(c, run[|run| - 1]), again);
          AloneIsSafe(c, run, |run| - 1);
          SafeRestartIsFresh(c, run[|run| - 1], again, |again| - 1);
        }
      }
    }
  }

  lemma NotEmpty(c: Config, run: seq<State>)
    requires IsRun(c, run)
    ensures run != []
  {
  }
}
