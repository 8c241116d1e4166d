/**
 The id engine as one sequential object beside its stored row, and its runs: calls on any days,
 restarts, and crashes at any point of a call or a restart.
 */
module IdEngine {
  import opened Bytes

  /** Days in calendar order; the engine only compares them. */
  type Day = nat

  /** The columns of the row that the engine reads; it writes valve and day. */
  datatype Row = Row(step: int, size: int, valve: int, day: Day)

  datatype Memory = Memory(step: int, size: int, valve: int, current: int, day: Option<Day>)

  datatype Id = Id(day: Day, number: int)

  /** What an operation does: the memory it leaves, the rows it writes one after the other, the id. */
  datatype Effect = Effect(memory: Memory, writes: seq<Row>, id: Option<Id>)

  const DEFAULT_STEP := 1
  const DEFAULT_SIZE := 100

  function Written(row: Row, m: Memory): Row
    requires m.day.Some?
  {
    row.(valve := m.valve, day := m.day.value)
  }

  function SwitchEffect(row: Row, m: Memory, now1: Day, now2: Day): Effect {
    if m.day == Some(now1) then Effect(m, [], None)
    else
      var m' := m.(current := 0, day := Some(now2), valve := m.size);
      Effect(m', [Written(row, m')], None)
  }

  function ReallocEffect(row: Row, m: Memory): Effect
    requires m.day.Some?
  {
    if m.current < m.valve then Effect(m, [], None)
    else
      var m' := m.(valve := m.valve + m.size);
      Effect(m', [Written(row, m')], None)
  }

  /** spawnId, which reads the clock up to three times. */
  function SpawnEffect(row: Row, m: Memory, now0: Day, now1: Day, now2: Day): Effect {
    var sw := if m.day == Some(now0) then Effect(m, [], None) else SwitchEffect(row, m, now1, now2);
    var m1 := sw.memory.(current := sw.memory.current + sw.memory.step);
    var number := sw.memory.current;
    if number < m1.valve then Effect(m1, sw.writes, Some(Id(m1.day.value, number)))
    else
      var re := ReallocEffect(row, m1);
      Effect(re.memory, sw.writes + re.writes,
             if number < re.memory.valve then Some(Id(m1.day.value, number)) else None)
  }

  /** init with a row that can be read. */
  function InitEffect(row: Row, now: Day): Effect {
    ReallocEffect(row, Memory(row.step, row.size, row.valve, row.valve, Some(now)))
  }

  /** init when the row cannot be read: the defaults, then a day switch. */
  function BlindInitEffect(row: Row, now1: Day, now2: Day): Effect {
    SwitchEffect(row, Memory(DEFAULT_STEP, DEFAULT_SIZE, 0, 0, None), now1, now2)
  }

  function RowAfter(row: Row, writes: seq<Row>): Row {
    if writes == [] then row else writes[|writes| - 1]
  }

  /** The stored row, with all rows written so far in the order of the writes. */
  class Store {
    var row: Row
    ghost var written: seq<Row>

    constructor (r: Row)
      ensures row == r && written == []
    {
      row, written := r, [];
    }
  }

  class Engine {
    const store: Store
    var step: int
    var size: int
    var valve: int
    var currentId: int
    var dayStamp: Option<Day>

    constructor (s: Store)
      ensures store == s && Contents() == Memory(DEFAULT_STEP, DEFAULT_SIZE, 0, 0, None)
    {
      store := s;
      step, size, valve, currentId, dayStamp := DEFAULT_STEP, DEFAULT_SIZE, 0, 0, None;
    }

    function Contents(): Memory
      reads this
    {
      Memory(step, size, valve, currentId, dayStamp)
    }

    method Persist()
      requires dayStamp.Some?
      modifies store
      ensures store.row == Written(old(store.row), Contents())
      ensures store.written == old(store.written) + [store.row]
    {
      store.row := store.row.(valve := valve, day := dayStamp.value);
      store.written := store.written + [store.row];
    }

    method DaySwitch(now1: Day, now2: Day)
      modifies this, store
      ensures var e := SwitchEffect(old(store.row), old(Contents()), now1, now2);
              Contents() == e.memory && store.row == RowAfter(old(store.row), e.writes) &&
              store.written == old(store.written) + e.writes
    {
      if dayStamp != Some(now1) {
        currentId := 0;
        dayStamp := Some(now2);
        valve := size;
        Persist();
      }
    }

    method ReallocValve()
      requires dayStamp.Some?
      modifies this, store
      ensures var e := ReallocEffect(old(store.row), old(Contents()));
              Contents() == e.memory && store.row == RowAfter(old(store.row), e.writes) &&
              store.written == old(store.written) + e.writes
    {
      if currentId >= valve {
        valve := valve + size;
        Persist();
      }
    }

    method Init(readable: bool, now1: Day, now2: Day)
      requires Contents() == Memory(DEFAULT_STEP, DEFAULT_SIZE, 0, 0, None)
      modifies this, store
      ensures var e := if readable then InitEffect(old(store.row), now1)
                       else BlindInitEffect(old(store.row), now1, now2);
              Contents() == e.memory && store.row == RowAfter(old(store.row), e.writes) &&
              store.written == old(store.written) + e.writes
    {
      if readable {
        step, size, valve := store.row.step, store.row.size, store.row.valve;
        dayStamp := Some(store.row.day);
        currentId := valve;
        dayStamp := Some(now1);
        ReallocValve();
      } else {
        DaySwitch(now1, now2);
      }
    }

    method SpawnId(now0: Day, now1: Day, now2: Day) returns (id: Option<Id>)
      modifies this, store
      ensures var e := SpawnEffect(old(store.row), old(Contents()), now0, now1, now2);
              Contents() == e.memory && store.row == RowAfter(old(store.row), e.writes) &&
              store.written == old(store.written) + e.writes && id == e.id
    {
      if dayStamp != Some(now0) {
        DaySwitch(now1, now2);
      }
      var nextId := currentId;
      currentId := currentId + step;
      if nextId < valve {
        id := Some(Id(dayStamp.value, nextId));
      } else {
        ReallocValve();
        if nextId < valve {
          id := Some(Id(dayStamp.value, nextId));
        } else {
          id := None;
        }
      }
    }
  }

  // ----- runs -----

  /** The row, the memory of the process if one is running, the latest clock reading, all ids issued. */
  datatype World = World(row: Row, memory: Option<Memory>, now: Day, issued: seq<Id>)

  /** An interrupted operation has made the first `done` of its writes. */
  datatype Event =
    | Call(now0: Day, now1: Day, now2: Day)
    | CrashInCall(now0: Day, now1: Day, now2: Day, done: nat)
    | Start(now: Day)
    | CrashInStart(now: Day, done: nat)

  predicate Enabled(w: World, e: Event) {
    match e
    case Call(n0, n1, n2) => w.memory.Some? && w.now <= n0 <= n1 <= n2
    case CrashInCall(n0, n1, n2, _) => w.memory.Some? && w.now <= n0 <= n1 <= n2
    case Start(n) => w.memory.None? && w.now <= n
    case CrashInStart(n, _) => w.memory.None? && w.now <= n
  }

  function Interrupted(row: Row, writes: seq<Row>, done: nat): Row {
    RowAfter(row, writes[..if done < |writes| then done else |writes|])
  }

  function Apply(w: World, e: Event): World
    requires Enabled(w, e)
  {
    match e
    case Call(n0, n1, n2) =>
      var f := SpawnEffect(w.row, w.memory.value, n0, n1, n2);
      World(RowAfter(w.row, f.writes), Some(f.memory), n2, w.issued + if f.id.Some? then [f.id.value] else [])
    case CrashInCall(n0, n1, n2, done) =>
      World(Interrupted(w.row, SpawnEffect(w.row, w.memory.value, n0, n1, n2).writes, done), None, n2, w.issued)
    case Start(n) =>
      var f := InitEffect(w.row, n);
      World(RowAfter(w.row, f.writes), Some(f.memory), n, w.issued)
    case CrashInStart(n, done) =>
      World(Interrupted(w.row, InitEffect(w.row, n).writes, done), None, n, w.issued)
  }

  ghost predicate Possible(w: World, events: seq<Event>)
    decreases |events|
  {
    events == [] || (Enabled(w, events[0]) && Possible(Apply(w, events[0]), events[1..]))
  }

  ghost function Play(w: World, events: seq<Event>): World
    requires Possible(w, events)
    decreases |events|
  {
    if events == [] then w else Play(Apply(w, events[0]), events[1..])
  }

  ghost predicate Distinct(ids: seq<Id>) {
    forall i, j :: 0 <= i < j < |ids| ==> ids[i] != ids[j]
  }

  ghost predicate RowSound(row: Row, now: Day, issued: seq<Id>) {
    row.step >= 1 && row.size >= 1 && row.valve >= 0 && row.day <= now && Distinct(issued) &&
    forall id :: id in issued ==> id.number >= 0 && id.day <= row.day && (id.day == row.day ==> id.number < row.valve)
  }

  ghost predicate MemorySound(m: Memory, row: Row, issued: seq<Id>) {
    m.day == Some(row.day) && m.valve == row.valve && m.step >= 1 && m.size >= 1 && m.current >= 0 &&
    forall id :: id in issued && id.day == row.day ==> id.number < m.current
  }

  ghost predicate Sound(w: World) {
    RowSound(w.row, w.now, w.issued) && (w.memory.Some? ==> MemorySound(w.memory.value, w.row, w.issued))
  }

  lemma StartKeepsSound(w: World, now: Day)
    requires Sound(w) && w.now <= now
    ensures var f := InitEffect(w.row, now);
            |f.writes| == 1 && RowSound(f.writes[0], now, w.issued) && MemorySound(f.memory, f.writes[0], w.issued)
  {
  }

  /** The day switch, if any, of a call. */
  lemma SwitchKeepsSound(w: World, now0: Day, now1: Day, now2: Day)
    requires Sound(w) && w.memory.Some? && w.now <= now0 <= now1 <= now2 && w.memory.value.day != Some(now0)
    ensures var f := SwitchEffect(w.row, w.memory.value, now1, now2);
            |f.writes| == 1 && RowSound(f.writes[0], now2, w.issued) && MemorySound(f.memory, f.writes[0], w.issued)
  {
  }

  /** A call on the day of the memory. */
  lemma SameDayCall(row: Row, m: Memory, now: Day, issued: seq<Id>)
    requires RowSound(row, now, issued) && MemorySound(m, row, issued)
    ensures var f := SpawnEffect(row, m, row.day, now, now);
            |f.writes| <= 1 && RowSound(RowAfter(row, f.writes), now, issued) &&
            var all := issued + if f.id.Some? then [f.id.value] else [];
            RowSound(RowAfter(row, f.writes), now, all) && MemorySound(f.memory, RowAfter(row, f.writes), all)
  {
  }

  lemma CallIsSwitchThenCall(row: Row, m: Memory, now0: Day, now1: Day, now2: Day)
    ensures var sw := if m.day == Some(now0) then Effect(m, [], None) else SwitchEffect(row, m, now1, now2);
            var f := SpawnEffect(row, m, now0, now1, now2);
            var g := SpawnEffect(RowAfter(row, sw.writes), sw.memory, sw.memory.day.value, now2, now2);
            f == Effect(g.memory, sw.writes + g.writes, g.id)
  {
  }

  lemma CallKeepsSound(w: World, now0: Day, now1: Day, now2: Day)
    requires Sound(w) && Enabled(w, Call(now0, now1, now2))
    ensures Sound(Apply(w, Call(now0, now1, now2)))
    ensures forall k: nat :: Sound(Apply(w, CrashInCall(now0, now1, now2, k)))
  {
    hide SpawnEffect, SwitchEffect, RowSound, MemorySound;
    var m := w.memory.value;
    var sw := if m.day == Some(now0) then Effect(m, [], None) else SwitchEffect(w.row, m, now1, now2);
    var row1 := RowAfter(w.row, sw.writes);
    RowOutlivesClock(w.row, w.now, now2, w.issued);
    if m.day != Some(now0) {
      SwitchKeepsSound(w, now0, now1, now2);
    }
    MemoryDay(sw.memory, row1, w.issued);
    SameDayCall(row1, sw.memory, now2, w.issued);
    CallIsSwitchThenCall(w.row, m, now0, now1, now2);
    var g := SpawnEffect(row1, sw.memory, row1.day, now2, now2);
    var writes := sw.writes + g.writes;
    assert RowAfter(w.row, writes) == RowAfter(row1, g.writes);
    forall k: nat ensures RowSound(Interrupted(w.row, writes, k), now2, w.issued) {
      InterruptedIsOneOf(w.row, sw.writes, g.writes, k);
    }
  }

  lemma MemoryDay(m: Memory, row: Row, issued: seq<Id>)
    requires MemorySound(m, row, issued)
    ensures m.day == Some(row.day)
  {
  }

  lemma RowOutlivesClock(row: Row, now: Day, later: Day, issued: seq<Id>)
    requires RowSound(row, now, issued) && now <= later
    ensures RowSound(row, later, issued)
  {
  }

  lemma InterruptedIsOneOf(row: Row, first: seq<Row>, second: seq<Row>, k: nat)
    requires |first| <= 1 && |second| <= 1
    ensures Interrupted(row, first + second, k) in {row, RowAfter(row, first), RowAfter(RowAfter(row, first), second)}
  {
  }

  lemma ApplyKeepsSound(w: World, e: Event)
    requires Sound(w) && Enabled(w, e)
    ensures Sound(Apply(w, e))
  {
    match e
    case Call(n0, n1, n2) => CallKeepsSound(w, n0, n1, n2);
    case CrashInCall(n0, n1, n2, k) => CallKeepsSound(w, n0, n1, n2);
    case Start(n) => StartKeepsSound(w, n);
    case CrashInStart(n, k) => StartKeepsSound(w, n);
  }

  lemma {:induction false} PlayKeepsSound(w: World, events: seq<Event>)
    requires Sound(w) && Possible(w, events)
    ensures Sound(Play(w, events))
    decreases |events|
  {
    if events != [] {
      ApplyKeepsSound(w, events[0]);
      PlayKeepsSound(Apply(w, events[0]), events[1..]);
    }
  }

  /**
   Uniqueness over whole runs: from a readable row and no process, whatever the calls, the day
   changes, the restarts and the points of the crashes, no id is issued twice for one day.
   */
  lemma NoIdTwice(row: Row, now: Day, events: seq<Event>)
    requires row.step >= 1 && row.size >= 1 && row.valve >= 0 && row.day <= now
    requires Possible(World(row, None, now, []), events)
    ensures Distinct(Play(World(row, None, now, []), events).issued)
  {
    PlayKeepsSound(World(row, None, now, []), events);
  }

  // ----- every call issues an id -----

  function Calls(events: seq<Event>): nat {
    if events == [] then 0 else (if events[0].Call? then 1 else 0) + Calls(events[1..])
  }

  predicate Roomy(w: World) {
    1 <= w.row.step <= w.row.size &&
    (w.memory.Some? ==>
       var m := w.memory.value;
       m.step == w.row.step && m.size == w.row.size && m.current < m.valve + m.step)
  }

  lemma {:induction false} EveryCallIssues(w: World, events: seq<Event>)
    requires Roomy(w) && Possible(w, events)
    ensures |Play(w, events).issued| == |w.issued| + Calls(events)
    decreases |events|
  {
    if events != [] {
      ApplyKeepsRoomy(w, events[0]);
      EveryCallIssues(Apply(w, events[0]), events[1..]);
    }
  }

  lemma ApplyKeepsRoomy(w: World, e: Event)
    requires Roomy(w) && Enabled(w, e)
    ensures Roomy(Apply(w, e))
    ensures |Apply(w, e).issued| == |w.issued| + if e.Call? then 1 else 0
  {
  }

  // ----- what each event does to the row, the memory and the ids -----

  /**
   A call takes the number the counter stands on and moves the counter by one step. It raises the
   valve by one block when the counter has reached it, and on another day it starts again at 0 below
   a valve of one block.
   */
  lemma CallDoes(w: World, n0: Day, n1: Day, n2: Day)
    requires Sound(w) && Enabled(w, Call(n0, n1, n2))
    ensures var m := w.memory.value;
            var after := Apply(w, Call(n0, n1, n2));
            if m.day == Some(n0) then
              var valve := if m.current < m.valve then m.valve else m.valve + m.size;
              after.memory == Some(Memory(m.step, m.size, valve, m.current + m.step, m.day)) &&
              after.row == w.row.(valve := valve) &&
              after.issued == w.issued + if m.current < valve then [Id(n0, m.current)] else []
            else
              after.memory == Some(Memory(m.step, m.size, m.size, m.step, Some(n2))) &&
              after.row == w.row.(valve := m.size, day := n2) &&
              after.issued == w.issued + [Id(n2, 0)]
  {
  }

  /** A process begins at the stored valve, which it first raises by one block. */
  lemma StartDoes(w: World, now: Day)
    requires Sound(w) && Enabled(w, Start(now))
    ensures var r, after := w.row, Apply(w, Start(now));
            after.memory == Some(Memory(r.step, r.size, r.valve + r.size, r.valve, Some(now))) &&
            after.row == r.(valve := r.valve + r.size, day := now) && after.issued == w.issued
  {
  }

  /** A crash leaves the row as it was, or as the completed operation leaves it. */
  lemma CrashDoes(w: World, e: Event)
    requires Sound(w) && Enabled(w, e)
    ensures match e
            case CrashInCall(n0, n1, n2, done) =>
              Apply(w, e) ==
              World(if done == 0 then w.row else Apply(w, Call(n0, n1, n2)).row, None, n2, w.issued)
            case CrashInStart(n, done) =>
              Apply(w, e) == World(if done == 0 then w.row else Apply(w, Start(n)).row, None, n, w.issued)
            case _ => true
  {
    hide RowSound;
    match e
    case CrashInCall(n0, n1, n2, done) => CallWritesOnce(w, n0, n1, n2);
    case _ =>
  }

  lemma CallWritesOnce(w: World, n0: Day, n1: Day, n2: Day)
    requires Sound(w) && Enabled(w, Call(n0, n1, n2))
    ensures |SpawnEffect(w.row, w.memory.value, n0, n1, n2).writes| <= 1
  {
  }

  /** Memory and row agree, and the valve is at most one block ahead of the counter. */
  ghost predicate Steady(w: World) {
    Sound(w) &&
    (w.memory.Some? ==>
       var m := w.memory.value;
       m.step == w.row.step && m.size == w.row.size && m.valve == w.row.valve <= m.current + m.size)
  }

  /** The row moved by at most one block, or it is the first of a later day that a call began. */
  predicate OneBlockOn(before: Row, after: Row) {
    after.step == before.step && after.size == before.size && before.day <= after.day &&
    (after.valve == before.valve || after.valve == before.valve + before.size ||
     (after.valve == before.size && before.day < after.day))
  }

  lemma ApplyKeepsSteady(w: World, e: Event)
    requires Steady(w) && Enabled(w, e)
    ensures Steady(Apply(w, e)) && OneBlockOn(w.row, Apply(w, e).row)
  {
    ApplyKeepsSound(w, e);
    CrashDoes(w, e);
    RowIsOfTheMemory(w);
    hide Apply, Sound;
    match e
    case Call(n0, n1, n2) => CallDoes(w, n0, n1, n2);
    case CrashInCall(n0, n1, n2, _) => CallDoes(w, n0, n1, n2);
    case Start(n) => StartDoes(w, n);
    case CrashInStart(n, _) => StartDoes(w, n);
  }

  lemma RowIsOfTheMemory(w: World)
    requires Sound(w)
    ensures w.row.day <= w.now && w.row.size >= 1 && w.row.step >= 1 && w.row.valve >= 0
    ensures w.memory.Some? ==>
              var m := w.memory.value;
              m.day == Some(w.row.day) && m.valve == w.row.valve && m.current >= 0
  {
  }

  predicate BlocksAbove(row: Row, base: int, blocks: nat) {
    row.valve == base + blocks * row.size
  }

  /** The stored valve is whole blocks above the first row's valve, or above the 0 a new day begins with. */
  ghost predicate WholeBlocks(first: Row, row: Row) {
    row.size == first.size && row.step == first.step &&
    exists blocks: nat :: BlocksAbove(row, first.valve, blocks) || BlocksAbove(row, 0, blocks)
  }

  lemma BlockKeepsWhole(first: Row, before: Row, after: Row)
    requires WholeBlocks(first, before) && OneBlockOn(before, after)
    ensures WholeBlocks(first, after)
  {
    var blocks: nat :| BlocksAbove(before, first.valve, blocks) || BlocksAbove(before, 0, blocks);
    if after.valve == before.valve {
      assert BlocksAbove(after, first.valve, blocks) || BlocksAbove(after, 0, blocks);
    } else if after.valve == before.valve + before.size {
      assert (blocks + 1) * before.size == blocks * before.size + before.size;
      assert BlocksAbove(after, first.valve, blocks + 1) || BlocksAbove(after, 0, blocks + 1);
    } else {
      assert BlocksAbove(after, 0, 1);
    }
  }

  /**
   In every state of every run that starts from a row: the valve is stored in whole blocks, and while
   a process runs it is the memory's and at most one block ahead of the counter.
   */
  lemma {:induction false} RunsStaySteady(first: Row, w: World, events: seq<Event>)
    requires Steady(w) && WholeBlocks(first, w.row) && Possible(w, events)
    ensures Steady(Play(w, events)) && WholeBlocks(first, Play(w, events).row)
    decreases |events|
  {
    if events != [] {
      ApplyKeepsSteady(w, events[0]);
      BlockKeepsWhole(first, w.row, Apply(w, events[0]).row);
      hide Apply, Enabled, Steady, WholeBlocks;
      RunsStaySteady(first, Apply(w, events[0]), events[1..]);
    }
  }

  /**
   A crash between two calls and a restart skip at most one block; a crash inside a call also loses
   the number of that call.
   */
  lemma RestartSkipsABlock(w: World, d: Day, done: nat, later: Day)
    requires Steady(w) && w.memory.Some? && w.memory.value.day == Some(d) && w.now == d <= later
    ensures var e := CrashInCall(d, d, d, done);
            Enabled(w, e) && Enabled(Apply(w, e), Start(later)) &&
            var restarted := Apply(Apply(w, e), Start(later));
            restarted.memory.Some? && restarted.memory.value.day == Some(later) &&
            restarted.memory.value.current <=
            w.memory.value.current + (if done == 0 then 0 else w.row.step) + w.row.size
  {
    var e := CrashInCall(d, d, d, done);
    assert Enabled(w, e) && Enabled(w, Call(d, d, d));
    ApplyKeepsSteady(w, e);
    CrashDoes(w, e);
    CallDoes(w, d, d, d);
    var crashed := Apply(w, e);
    assert Enabled(crashed, Start(later)) by {
      hide Steady, Sound;
    }
    StartDoes(crashed, later);
    hide Apply, Sound;
  }

  // ----- the numbers of the calls of a day -----

  function CallsOnDay(d: Day, n: nat): seq<Event> {
    seq(n, _ => Call(d, d, d))
  }

  /** The numbers first, first + step, first + 2 * step and so on. */
  function IdsFrom(d: Day, first: int, step: int, n: nat): seq<Id> {
    seq(n, k => Id(d, first + k * step))
  }

  lemma IdsFromFront(d: Day, first: int, step: int, n: nat)
    requires n > 0
    ensures IdsFrom(d, first, step, n) == [Id(d, first)] + IdsFrom(d, first + step, step, n - 1)
  {
    var ids, more := IdsFrom(d, first, step, n), IdsFrom(d, first + step, step, n - 1);
    forall k | 0 < k < n ensures ids[k] == more[k - 1] {
      assert first + step + (k - 1) * step == first + k * step;
    }
  }

  /** A call on the day of the memory, in a world that need not be sound. */
  lemma CallOnDay(w: World, d: Day)
    requires w.memory.Some? && w.now == d && w.memory.value.day == Some(d) && w.memory.value.step >= 1
    ensures Enabled(w, Call(d, d, d))
    ensures var m, after := w.memory.value, Apply(w, Call(d, d, d));
            after.memory.Some? && after.now == d &&
            var m' := after.memory.value;
            m'.day == Some(d) && m'.step == m.step && m'.size == m.size && m'.current == m.current + m.step &&
            (after.issued == w.issued + [] || after.issued == w.issued + [Id(d, m.current)]) &&
            (m.step <= m.size && m.current < m.valve + m.step ==>
               m'.current < m'.valve + m.step && |after.issued| > |w.issued|)
  {
  }

  /**
   Calls in a row on one day: the counter moves by one step a call, at most one id is issued a call,
   and when none fails the ids are the counter's values. With room in the block none fails.
   */
  lemma {:induction false} CallsCountUp(w: World, d: Day, n: nat)
    requires w.memory.Some? && w.now == d && w.memory.value.day == Some(d) && w.memory.value.step >= 1
    ensures Possible(w, CallsOnDay(d, n))
    ensures var m, after := w.memory.value, Play(w, CallsOnDay(d, n));
            after.memory.Some? && after.memory.value.current == m.current + n * m.step &&
            |after.issued| <= |w.issued| + n &&
            (|after.issued| == |w.issued| + n ==> after.issued == w.issued + IdsFrom(d, m.current, m.step, n)) &&
            (m.step <= m.size && m.current < m.valve + m.step ==> |after.issued| == |w.issued| + n)
    decreases n
  {
    var m := w.memory.value;
    if n == 0 {
      assert w.issued + [] == w.issued;
    } else {
      var events := CallsOnDay(d, n);
      var next := Apply(w, Call(d, d, d));
      CallOnDay(w, d);
      hide Apply, Enabled;
      assert events[0] == Call(d, d, d) && events[1..] == CallsOnDay(d, n - 1);
      CallsCountUp(next, d, n - 1);
      OneStepMore(m.current, m.step, n);
      IdsFromFront(d, m.current, m.step, n);
      hide IdsFrom;
      IssuedInTurn(w.issued, Id(d, m.current), IdsFrom(d, m.current + m.step, m.step, n - 1));
    }
  }

  lemma OneStepMore(first: int, step: int, n: nat)
    requires n > 0
    ensures first + step + (n - 1) * step == first + n * step
  {
  }

  lemma IssuedInTurn(issued: seq<Id>, id: Id, more: seq<Id>)
    ensures issued + [] == issued && issued + [id] + more == issued + ([id] + more)
  {
  }

  // ----- a restart that cannot read the row -----

  function BlindStart(w: World, now1: Day, now2: Day): World {
    var f := BlindInitEffect(w.row, now1, now2);
    World(RowAfter(w.row, f.writes), Some(f.memory), now2, w.issued)
  }

  /** Such a process runs with a step of 1 and blocks of 100, from 0 on, whatever the row says. */
  lemma BlindStartDoes(w: World, now1: Day, now2: Day)
    ensures var after := BlindStart(w, now1, now2);
            after.memory == Some(Memory(1, 100, 100, 0, Some(now2))) &&
            after.row == w.row.(valve := 100, day := now2) && after.issued == w.issued && after.now == now2
  {
  }

  /**
   A restart that cannot read the row keeps ids unique in all that follows if and only if no id has
   been issued on the day it switches to.
   */
  lemma BlindStartIsSafeIffNewDay(w: World, now1: Day, now2: Day)
    requires Sound(w) && w.memory.None? && w.now <= now1 <= now2
    ensures (forall events: seq<Event> :: Possible(BlindStart(w, now1, now2), events) ==>
               Distinct(Play(BlindStart(w, now1, now2), events).issued)) <==>
            (forall id :: id in w.issued ==> id.day != now2)
  {
    var b := BlindStart(w, now1, now2);
    if forall id :: id in w.issued ==> id.day != now2 {
      assert Sound(b);
      forall events: seq<Event> | Possible(b, events) ensures Distinct(Play(b, events).issued) {
        PlayKeepsSound(b, events);
      }
    } else {
      var id :| id in w.issued && id.day == now2;
      BlindStartRepeats(w, now1, now2, id);
    }
  }

  lemma BlindStartRepeats(w: World, now1: Day, now2: Day, id: Id)
    requires Sound(w) && w.memory.None? && w.now <= now1 <= now2
    requires id in w.issued && id.day == now2
    ensures exists events: seq<Event> :: Possible(BlindStart(w, now1, now2), events) &&
              !Distinct(Play(BlindStart(w, now1, now2), events).issued)
  {
    var b, n := BlindStart(w, now1, now2), id.number + 1;
    var events := CallsOnDay(now2, n);
    BlindStartDoes(w, now1, now2);
    CallsCountUp(b, now2, n);
    hide BlindStart;
    var all := Play(b, events).issued;
    assert IdsFrom(now2, 0, 1, n)[id.number] == id;
    var i :| 0 <= i < |w.issued| && w.issued[i] == id;
    assert all[i] == id && all[|w.issued| + id.number] == id;
    assert !Distinct(all);
  }

  /** A day on which an id is issued and the process crashes: then a restart that cannot read the row repeats it. */
  lemma BlindStartCanRepeat(row: Row, d: Day) returns (events: seq<Event>, again: seq<Event>)
    requires row.step >= 1 && row.size >= 1 && row.valve >= 0 && row.day <= d
    ensures Possible(World(row, None, d, []), events)
    ensures var w := Play(World(row, None, d, []), events);
            w.memory.None? && w.now == d && Possible(BlindStart(w, d, d), again) &&
            !Distinct(Play(BlindStart(w, d, d), again).issued)
  {
    var w0 := World(row, None, d, []);
    events := [Start(d), Call(d, d, d), CrashInCall(d, d, d, 0)];
    var w1 := Apply(w0, events[0]);
    var w2 := Apply(w1, events[1]);
    var w := Apply(w2, events[2]);
    ThreeEvents(w0, events, w1, w2, w);
    PlayKeepsSound(w0, events);
    var id := Id(d, row.valve);
    assert w.issued == [] + [id];
    BlindStartRepeats(w, d, d, id);
    again :| Possible(BlindStart(w, d, d), again) && !Distinct(Play(BlindStart(w, d, d), again).issued);
  }

  lemma ThreeEvents(w0: World, events: seq<Event>, w1: World, w2: World, w: World)
    requires |events| == 3 && Enabled(w0, events[0]) && w1 == Apply(w0, events[0])
    requires Enabled(w1, events[1]) && w2 == Apply(w1, events[1])
    requires Enabled(w2, events[2]) && w == Apply(w2, events[2])
    ensures Possible(w0, events) && Play(w0, events) == w
  {
    hide Apply, Enabled;
    var tail := events[1..];
    var last := tail[1..];
    assert last[1..] == [];
    assert Possible(w2, last) && Play(w2, last) == w;
    assert Possible(w1, tail) && Play(w1, tail) == w;
  }
}
