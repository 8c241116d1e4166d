/**
 The id engine within one day, with any number of threads calling spawnId at once: an
 interleaving of the atomic steps of spawnId and reallocValve.
 */
module IdConcurrent {

  /** Where a thread stands; all but Idle carry the id its fetch_add returned. */
  datatype Pc =
    | Idle
    | Fetched(id: int)     // about to compare the id with the valve
    | Waiting(id: int)     // in reallocValve, before the lock
    | Holding(id: int)     // has the lock, about to compare the counter with the valve
    | Raising(id: int)     // about to add to the valve
    | Persisting(id: int)  // has added to the valve, about to write the row
    | Releasing(id: int)   // about to give the lock back
    | Rechecking(id: int)  // about to compare the id with the valve again

  /** `base` is the counter when the day or the process started. */
  datatype Config = Config(step: int, size: int, base: int, threads: nat) {
    predicate Valid() {
      step >= 1 && size >= 1
    }
  }

  /** `issued` lists the ids handed out, `failed` counts the calls that ended in LCT_FAIL. */
  datatype State = State(current: int, valve: int, stored: int, pcs: seq<Pc>, issued: seq<int>, failed: nat)

  predicate HasLock(p: Pc) {
    p.Holding? || p.Raising? || p.Persisting? || p.Releasing?
  }

  predicate LockFree(s: State) {
    forall t :: 0 <= t < |s.pcs| ==> !HasLock(s.pcs[t])
  }

  function Init(c: Config): State {
    State(c.base, c.base + c.size, c.base + c.size, seq(c.threads, _ => Idle), [], 0)
  }

  predicate CanAct(s: State, t: nat) {
    t < |s.pcs| && (s.pcs[t].Waiting? ==> LockFree(s))
  }

  /** The next atomic step of thread t. */
  function Act(c: Config, s: State, t: nat): State
    requires CanAct(s, t)
  {
    match s.pcs[t]
    case Idle => s.(current := s.current + c.step, pcs := s.pcs[t := Fetched(s.current)])
    case Fetched(id) =>
      if id < s.valve then s.(issued := s.issued + [id], pcs := s.pcs[t := Idle])
      else s.(pcs := s.pcs[t := Waiting(id)])
    case Waiting(id) => s.(pcs := s.pcs[t := Holding(id)])
    case Holding(id) => s.(pcs := s.pcs[t := if s.current >= s.valve then Raising(id) else Releasing(id)])
    case Raising(id) => s.(valve := s.valve + c.size, pcs := s.pcs[t := Persisting(id)])
    case Persisting(id) => s.(stored := s.valve, pcs := s.pcs[t := Releasing(id)])
    case Releasing(id) => s.(pcs := s.pcs[t := Rechecking(id)])
    case Rechecking(id) =>
      if id < s.valve then s.(issued := s.issued + [id], pcs := s.pcs[t := Idle])
      else s.(failed := s.failed + 1, pcs := s.pcs[t := Idle])
  }

  ghost predicate Next(c: Config, s: State, s': State) {
    exists t: nat :: CanAct(s, t) && s' == Act(c, s, t)
  }

  ghost predicate IsRun(c: Config, run: seq<State>) {
    run != [] && run[0] == Init(c) && forall i :: 0 <= i < |run| - 1 ==> Next(c, run[i], run[i + 1])
  }

  // ----- what every step keeps -----

  /** The id of the k-th fetch_add. */
  function Ticket(c: Config, k: nat): int {
    c.base + k * c.step
  }

  ghost predicate IsTicket(c: Config, id: int) {
    exists k: nat :: Ticket(c, k) == id
  }

  ghost predicate IdsDistinct(s: State) {
    (forall i, j :: 0 <= i < j < |s.issued| ==> s.issued[i] != s.issued[j]) &&
    (forall t, u :: 0 <= t < u < |s.pcs| && !s.pcs[t].Idle? && !s.pcs[u].Idle? ==> s.pcs[t].id != s.pcs[u].id) &&
    (forall t, i :: 0 <= t < |s.pcs| && !s.pcs[t].Idle? && 0 <= i < |s.issued| ==> s.pcs[t].id != s.issued[i])
  }

  ghost predicate IdsBelow(c: Config, s: State) {
    (forall t :: 0 <= t < |s.pcs| && !s.pcs[t].Idle? ==> s.pcs[t].id < s.current && IsTicket(c, s.pcs[t].id)) &&
    (forall i :: 0 <= i < |s.issued| ==>
       s.issued[i] < s.current && s.issued[i] < s.valve && IsTicket(c, s.issued[i])) &&
    IsTicket(c, s.current)
  }

  ghost predicate LockHeldOnce(s: State) {
    forall t, u :: 0 <= t < u < |s.pcs| ==> !(HasLock(s.pcs[t]) && HasLock(s.pcs[u]))
  }

  /** The valve is never more than one block ahead, and the row lags only while a write is pending. */
  ghost predicate ValveSound(c: Config, s: State) {
    c.base <= s.valve <= s.current + c.size &&
    (forall t :: 0 <= t < |s.pcs| && s.pcs[t].Raising? ==> s.valve <= s.current) &&
    (forall t :: 0 <= t < |s.pcs| && s.pcs[t].Persisting? ==> s.stored == s.valve - c.size && s.stored <= s.current) &&
    (WritePending(s) || s.stored == s.valve)
  }

  ghost predicate WritePending(s: State) {
    exists t :: 0 <= t < |s.pcs| && s.pcs[t].Persisting?
  }

  /** An issued id is below the row, except for ids issued while a write is pending. */
  ghost predicate IssuedBelowRow(s: State) {
    forall i :: 0 <= i < |s.issued| ==> s.issued[i] < s.stored
  }

  ghost predicate Inv(c: Config, s: State) {
    |s.pcs| == c.threads && IdsDistinct(s) && IdsBelow(c, s) && LockHeldOnce(s) && ValveSound(c, s)
  }

  lemma NextTicket(c: Config, k: nat)
    ensures Ticket(c, k + 1) == Ticket(c, k) + c.step
  {
  }

  /** A step leaves all other threads alone, and its own thread either fetches, issues, keeps or drops its id. */
  lemma ActShape(c: Config, s: State, t: nat)
    requires CanAct(s, t)
    ensures var s', p := Act(c, s, t), Act(c, s, t).pcs[t];
            s'.pcs == s.pcs[t := p] &&
            if s.pcs[t].Idle? then
              !p.Idle? && p.id == s.current && s'.current == s.current + c.step && s'.issued == s.issued
            else
              s'.current == s.current && (p.Idle? || p.id == s.pcs[t].id) &&
              (s'.issued == s.issued || (p.Idle? && s.pcs[t].id < s.valve && s'.issued == s.issued + [s.pcs[t].id]))
    ensures c.size >= 1 ==> s.valve <= Act(c, s, t).valve
  {
  }

  lemma ActKeepsDistinct(c: Config, s: State, t: nat)
    requires c.Valid() && CanAct(s, t)
    requires IdsDistinct(s) && IdsBelow(c, s)
    ensures IdsDistinct(Act(c, s, t))
  {
    hide Act, IsTicket;
    ActShape(c, s, t);
  }

  lemma ActKeepsBelow(c: Config, s: State, t: nat)
    requires c.Valid() && CanAct(s, t)
    requires IdsBelow(c, s)
    ensures IdsBelow(c, Act(c, s, t))
  {
    hide Act, Ticket;
    ActShape(c, s, t);
    var k: nat :| Ticket(c, k) == s.current;
    NextTicket(c, k);
    assert IsTicket(c, s.current + c.step);
    hide IsTicket;
  }

  lemma ActKeepsLock(c: Config, s: State, t: nat)
    requires CanAct(s, t) && LockHeldOnce(s)
    ensures LockHeldOnce(Act(c, s, t))
  {
    var s' := Act(c, s, t);
    assert forall u :: 0 <= u < |s.pcs| && u != t ==> s'.pcs[u] == s.pcs[u];
  }

  /** A pending write is a write by the one thread that holds the lock. */
  lemma OnePends(s: State, t: nat)
    requires LockHeldOnce(s) && t < |s.pcs| && HasLock(s.pcs[t])
    ensures WritePending(s) <==> s.pcs[t].Persisting?
    ensures forall u :: 0 <= u < |s.pcs| && u != t ==> !HasLock(s.pcs[u])
  {
  }

  lemma ActKeepsValve(c: Config, s: State, t: nat)
    requires c.Valid() && CanAct(s, t)
    requires LockHeldOnce(s) && ValveSound(c, s)
    ensures ValveSound(c, Act(c, s, t))
  {
    hide LockHeldOnce;
    var s' := Act(c, s, t);
    ActKeepsLock(c, s, t);
    if HasLock(s.pcs[t]) {
      OnePends(s, t);
    }
    if HasLock(s'.pcs[t]) {
      OnePends(s', t);
    } else if !HasLock(s.pcs[t]) {
      assert forall u :: 0 <= u < |s.pcs| ==> (s.pcs[u].Persisting? <==> s'.pcs[u].Persisting?);
      assert WritePending(s) <==> WritePending(s') by {
        if WritePending(s) {
          var u :| 0 <= u < |s.pcs| && s.pcs[u].Persisting?;
          assert s'.pcs[u].Persisting?;
        }
      }
    }
  }

  lemma ActKeepsInv(c: Config, s: State, t: nat)
    requires c.Valid() && CanAct(s, t) && Inv(c, s)
    ensures Inv(c, Act(c, s, t))
  {
    hide IdsDistinct, IdsBelow, LockHeldOnce, ValveSound;
    ActKeepsDistinct(c, s, t);
    ActKeepsBelow(c, s, t);
    ActKeepsLock(c, s, t);
    ActKeepsValve(c, s, t);
  }

  lemma InitHasInv(c: Config)
    requires c.Valid()
    ensures Inv(c, Init(c))
  {
    assert Ticket(c, 0) == c.base;
  }

  lemma {:induction false} RunsKeepInv(c: Config, run: seq<State>, i: nat)
    requires c.Valid() && IsRun(c, run) && i < |run|
    ensures Inv(c, run[i])
  {
    hide Inv, Act;
    if i == 0 {
      InitHasInv(c);
    } else {
      RunsKeepInv(c, run, i - 1);
      assert Next(c, run[i - 1], run[i - 1 + 1]);
      var t: nat :| CanAct(run[i - 1], t) && run[i] == Act(c, run[i - 1], t);
      ActKeepsInv(c, run[i - 1], t);
    }
  }

  /**
   Safety in every interleaving: ids handed out are pairwise distinct and below the valve, the
   valve is at most one block ahead of the counter, and so a restart from the valve skips at most
   one block.
   */
  lemma IdsAreSafe(c: Config, run: seq<State>, i: nat)
    requires c.Valid() && IsRun(c, run) && i < |run|
    ensures var s := run[i];
            (forall j, k :: 0 <= j < k < |s.issued| ==> s.issued[j] != s.issued[k]) &&
            (forall id :: id in s.issued ==> c.base <= id < s.valve) &&
            s.valve - s.current <= c.size
  {
    RunsKeepInv(c, run, i);
    var s := run[i];
    forall id | id in s.issued ensures c.base <= id < s.valve {
      var k: nat :| Ticket(c, k) == id;
    }
  }

  // ----- no spurious failure -----

  /** Every id fetched at or above the valve is still in the hands of a thread. */
  ghost predicate AboveValveHeld(c: Config, s: State) {
    forall k: nat :: s.valve <= Ticket(c, k) < s.current ==> Held(s.pcs, Ticket(c, k))
  }

  ghost predicate Held(pcs: seq<Pc>, id: int) {
    exists t :: 0 <= t < |pcs| && !pcs[t].Idle? && pcs[t].id == id
  }

  /** After the valve was raised or found high enough, the thread's id is below it. */
  ghost predicate NoneWillFail(s: State) {
    s.failed == 0 &&
    forall t :: 0 <= t < |s.pcs| && (s.pcs[t].Persisting? || s.pcs[t].Releasing? || s.pcs[t].Rechecking?) ==>
      s.pcs[t].id < s.valve
  }

  /** n ids in a row cannot be in the hands of fewer than n threads. */
  lemma {:induction false} Pigeonhole(c: Config, pcs: seq<Pc>, first: nat, n: nat)
    requires c.Valid()
    requires forall k: nat :: first <= k < first + n ==> Held(pcs, Ticket(c, k))
    ensures n <= |pcs|
    decreases n
  {
    if n > 0 {
      var id := Ticket(c, first + n - 1);
      assert Held(pcs, id);
      var t :| 0 <= t < |pcs| && !pcs[t].Idle? && pcs[t].id == id;
      var others := pcs[..t] + pcs[t + 1..];
      forall k: nat | first <= k < first + n - 1 ensures Held(others, Ticket(c, k)) {
        TicketsGrow(c, k, first + n - 1);
        assert Held(pcs, Ticket(c, k));
        var u :| 0 <= u < |pcs| && !pcs[u].Idle? && pcs[u].id == Ticket(c, k);
        assert others[if u < t then u else u - 1] == pcs[u];
      }
      Pigeonhole(c, others, first, n - 1);
    }
  }

  lemma Scale(a: int, b: int, d: int)
    requires a <= b && d >= 0
    ensures a * d <= b * d
  {
    assert (b - a) * d >= 0;
  }

  lemma TicketsGrow(c: Config, j: nat, k: nat)
    requires c.Valid() && j <= k
    ensures Ticket(c, k) == Ticket(c, j) + (k - j) * c.step
    ensures j < k ==> Ticket(c, j) + c.step <= Ticket(c, k)
  {
    if j < k {
      Scale(1, k - j, c.step);
    }
  }

  /** So a fetched id is less than one step per thread above the valve. */
  lemma FetchedIsNear(c: Config, s: State, t: nat)
    requires c.Valid() && Inv(c, s) && AboveValveHeld(c, s)
    requires t < |s.pcs| && !s.pcs[t].Idle?
    ensures s.pcs[t].id < s.valve + c.threads * c.step
  {
    hide IdsDistinct, LockHeldOnce, Ticket;
    var id, n := s.pcs[t].id, c.threads;
    var k: nat :| Ticket(c, k) == id;
    if id >= s.valve + n * c.step {
      TicketIsFar(c, k, n);
      forall j: nat | k - n <= j < k + 1 ensures Held(s.pcs, Ticket(c, j)) {
        TicketIsBetween(c, j, k, n);
      }
      Pigeonhole(c, s.pcs, k - n, n + 1);
    }
  }

  lemma TicketIsFar(c: Config, k: nat, n: nat)
    requires c.Valid() && Ticket(c, k) >= c.base + n * c.step
    ensures k >= n
  {
    if k < n {
      Scale(k + 1, n, c.step);
    }
  }

  lemma TicketIsBetween(c: Config, j: nat, k: nat, n: nat)
    requires c.Valid() && k - n <= j <= k
    ensures Ticket(c, k) - n * c.step <= Ticket(c, j) <= Ticket(c, k)
  {
    Scale(j, k, c.step);
    Scale(k - j, n, c.step);
    assert (k - j) * c.step == k * c.step - j * c.step;
  }

  ghost predicate FullInv(c: Config, s: State) {
    Inv(c, s) && AboveValveHeld(c, s) && NoneWillFail(s)
  }

  /** An id at or above the valve is given up only below the new valve, or when the call fails. */
  lemma IdleIsBelow(c: Config, s: State, t: nat)
    requires CanAct(s, t) && NoneWillFail(s) && !s.pcs[t].Idle? && Act(c, s, t).pcs[t].Idle?
    ensures s.pcs[t].id < s.valve
  {
  }

  lemma ActKeepsHeld(c: Config, s: State, t: nat)
    requires c.Valid() && CanAct(s, t) && FullInv(c, s)
    ensures AboveValveHeld(c, Act(c, s, t))
  {
    hide Act, IdsDistinct, LockHeldOnce, ValveSound, NoneWillFail, Ticket;
    ActShape(c, s, t);
    var s' := Act(c, s, t);
    if !s.pcs[t].Idle? && s'.pcs[t].Idle? {
      IdleIsBelow(c, s, t);
    }
    forall k: nat | s'.valve <= Ticket(c, k) < s'.current ensures Held(s'.pcs, Ticket(c, k)) {
      if Ticket(c, k) < s.current {
        assert Held(s.pcs, Ticket(c, k));
        var u :| 0 <= u < |s.pcs| && !s.pcs[u].Idle? && s.pcs[u].id == Ticket(c, k);
        assert s'.pcs[u].id == Ticket(c, k);
      } else {
        LastTicket(c, k, s.current);
        assert s'.pcs[t].id == s.current;
      }
    }
  }

  lemma LastTicket(c: Config, k: nat, id: int)
    requires c.Valid() && IsTicket(c, id) && id <= Ticket(c, k) < id + c.step
    ensures Ticket(c, k) == id
  {
    hide Ticket;
    var m: nat :| Ticket(c, m) == id;
    if k > m { TicketsGrow(c, m, k); } else { TicketsGrow(c, k, m); }
  }

  lemma ActKeepsNoFailure(c: Config, s: State, t: nat)
    requires c.Valid() && CanAct(s, t) && NoneWillFail(s) && ValveSound(c, s)
    requires s.pcs[t].Raising? ==> s.pcs[t].id < s.valve + c.size
    requires !s.pcs[t].Idle? ==> s.pcs[t].id < s.current
    ensures NoneWillFail(Act(c, s, t))
  {
    hide ValveSound, WritePending;
  }

  lemma ActKeepsFullInv(c: Config, s: State, t: nat)
    requires c.Valid() && CanAct(s, t) && FullInv(c, s)
    requires c.threads * c.step <= c.size
    ensures FullInv(c, Act(c, s, t))
  {
    hide AboveValveHeld, NoneWillFail, LockHeldOnce, IdsDistinct, ValveSound, Act;
    ActKeepsInv(c, s, t);
    ActKeepsHeld(c, s, t);
    if s.pcs[t].Raising? {
      FetchedIsNear(c, s, t);
    }
    ActKeepsNoFailure(c, s, t);
  }

  lemma {:induction false} RunsKeepFullInv(c: Config, run: seq<State>, i: nat)
    requires c.Valid() && IsRun(c, run) && i < |run|
    requires c.threads * c.step <= c.size
    ensures FullInv(c, run[i])
  {
    hide Inv, Act;
    if i == 0 {
      InitHasInv(c);
      forall k: nat ensures !(Init(c).valve <= Ticket(c, k) < Init(c).current) {
      }
    } else {
      RunsKeepFullInv(c, run, i - 1);
      assert Next(c, run[i - 1], run[i - 1 + 1]);
      var t: nat :| CanAct(run[i - 1], t) && run[i] == Act(c, run[i - 1], t);
      ActKeepsFullInv(c, run[i - 1], t);
    }
  }
}
