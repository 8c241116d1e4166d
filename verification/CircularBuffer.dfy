/**
 The byte circular buffer: an array with a first and a last position, bulk operations with fast
 paths, and an overlap mode in which a push on a full buffer drops the oldest byte. Every operation
 is proved to act as a plain bounded queue on the contents, oldest byte first.
 */
module CircularBuffer {
  import opened Bytes

  // ----- the bounded queue it stands for -----

  /** The last n elements. */
  function Keep(s: bytes, n: nat): bytes {
    if |s| <= n then s else s[|s| - n..]
  }

  lemma KeepStepwise(s: bytes, t: bytes, n: nat)
    ensures Keep(Keep(s, n) + t, n) == Keep(s + t, n)
  {
    if |s| > n && |t| <= n {
      var drop := |s| - n;
      assert (s + t)[drop..] == Keep(s, n) + t;
      assert (s + t)[|s + t| - n..] == (s + t)[drop..][|t|..];
    } else if |s| > n {
      assert (s + t)[|s + t| - n..] == t[|t| - n..];
      assert (Keep(s, n) + t)[|t|..] == t[|t| - n..];
    }
  }

  datatype Queue = Queue(held: bytes, capacity: nat, overlap: bool)

  datatype Op = Push(c: byte) | PushN(s: bytes) | Peek | Pop | PopN(n: nat) | Iterate | Overlap(on: bool)

  /** What a call hands back: whether it succeeded, and the bytes it gave to the caller. */
  datatype Reply = Reply(ok: bool, out: bytes)

  function Least(a: nat, b: nat): nat {
    if a < b then a else b
  }

  function Appended(q: Queue, s: bytes): bytes
    requires |q.held| <= q.capacity
  {
    if q.overlap then Keep(q.held + s, q.capacity) else q.held + s[..Least(|s|, q.capacity - |q.held|)]
  }

  function Do(q: Queue, op: Op): (r: (Queue, Reply))
    requires |q.held| <= q.capacity
    ensures |r.0.held| <= q.capacity == r.0.capacity
  {
    match op
    case Push(c) => (q.(held := Appended(q, [c])), Reply(q.overlap || |q.held| < q.capacity, []))
    case PushN(s) => (q.(held := Appended(q, s)), Reply(q.overlap || |s| <= q.capacity - |q.held|, []))
    case Peek => (q, if q.held == [] then Reply(false, []) else Reply(true, [q.held[0]]))
    case Pop =>
      if q.held == [] then (q, Reply(false, []))
      else (q.(held := q.held[1..]), Reply(true, [q.held[0]]))
    case PopN(n) =>
      if |q.held| < n then (q, Reply(false, []))
      else (q.(held := q.held[n..]), Reply(true, q.held[..n]))
    case Iterate => (q, Reply(true, q.held))
    case Overlap(on) => (q.(overlap := on), Reply(true, []))
  }

  // ----- positions in the array -----

  /** The position i places after position p in an array of n. */
  function Slot(p: nat, i: nat, n: nat): (slot: nat)
    requires p < n && i <= n
    ensures slot < n
  {
    if p + i < n then p + i else p + i - n
  }

  /** The live bytes: count of them from position first on, around the end. */
  function Live(d: bytes, first: nat, count: nat): (s: bytes)
    requires first < |d| && count <= |d|
    ensures |s| == count
  {
    seq(count, i requires 0 <= i < count => d[Slot(first, i, |d|)])
  }

  lemma WriteLive(d: bytes, e: bytes, first: nat, count: nat, s: bytes)
    requires |d| == |e| && first < |d| && count + |s| <= |d|
    requires forall i :: 0 <= i < |s| ==> e[Slot(first, count + i, |d|)] == s[i]
    requires forall i :: 0 <= i < count ==> e[Slot(first, i, |d|)] == d[Slot(first, i, |d|)]
    ensures Live(e, first, count + |s|) == Live(d, first, count) + s
  {
    var l := Live(e, first, count + |s|);
    forall i | 0 <= i < count + |s| ensures l[i] == (Live(d, first, count) + s)[i] {
      if i >= count {
        assert e[Slot(first, count + (i - count), |d|)] == s[i - count];
      }
    }
  }

  lemma AppendLive(d: bytes, first: nat, count: nat, c: byte)
    requires first < |d| && count <= |d|
    ensures var e := d[Slot(first, count, |d|) := c];
            if count < |d| then Live(e, first, count + 1) == Live(d, first, count) + [c]
            else Live(e, Slot(first, 1, |d|), |d|) == Keep(Live(d, first, |d|) + [c], |d|)
  {
    hide Slot;
    var e := d[Slot(first, count, |d|) := c];
    if count < |d| {
      SlotsDiffer(first, count, |d|);
      WriteLive(d, e, first, count, [c]);
    } else {
      OverwriteLive(d, first, c);
    }
  }

  lemma SlotsDiffer(p: nat, k: nat, n: nat)
    requires p < n && k < n
    ensures forall i :: 0 <= i < n && i != k ==> Slot(p, i, n) != Slot(p, k, n)
  {
  }

  /** Of a full array the oldest byte is overwritten, and becomes the newest. */
  lemma OverwriteLive(d: bytes, first: nat, c: byte)
    requires first < |d|
    ensures var n := |d|;
            Live(d[Slot(first, n, n) := c], Slot(first, 1, n), n) == Keep(Live(d, first, n) + [c], n)
  {
    var n := |d|;
    var l := Live(d[first := c], Slot(first, 1, n), n);
    var k := (Live(d, first, n) + [c])[1..];
    forall i | 0 <= i < n ensures l[i] == k[i] {
      assert k[i] == if i < n - 1 then d[Slot(first, i + 1, n)] else c;
    }
  }

  lemma SlotNext(p: nat, i: nat, n: nat)
    requires p < n && i < n
    ensures Slot(Slot(p, i, n), 1, n) == Slot(p, i + 1, n)
  {
  }

  lemma SlotAround(p: nat, n: nat)
    requires p < n
    ensures Slot(p, n, n) == p && Slot(Slot(p, 1, n), n, n) == Slot(p, 1, n)
  {
  }

  lemma DropLive(d: bytes, first: nat, count: nat, n: nat)
    requires first < |d| && n <= count <= |d|
    ensures Live(d, Slot(first, n, |d|), count - n) == Live(d, first, count)[n..]
  {
  }

  // ----- what the queue does with more than one byte -----

  lemma PushNone(q: Queue)
    requires |q.held| <= q.capacity
    ensures Do(q, PushN([])).0 == q
  {
    assert q.held + [] == q.held;
  }

  lemma FitsWhole(q: Queue, s: bytes)
    requires |q.held| <= q.capacity
    ensures |q.held| + |s| <= q.capacity ==> Appended(q, s) == q.held + s
  {
    assert s[..|s|] == s;
  }

  /** One more byte of s: either it is taken too, or there is no room and that was all of pushing s. */
  lemma PushOneMore(q: Queue, s: bytes, i: nat)
    requires |q.held| <= q.capacity && i < |s|
    requires q.overlap || i <= q.capacity - |q.held|
    ensures Do(Do(q, PushN(s[..i])).0, Push(s[i])) ==
            if q.overlap || i < q.capacity - |q.held| then (Do(q, PushN(s[..i + 1])).0, Reply(true, []))
            else Do(q, PushN(s))
  {
    assert q.held + s[..i] + [s[i]] == q.held + s[..i + 1];
    if q.overlap {
      KeepStepwise(q.held + s[..i], [s[i]], q.capacity);
    } else {
      FitsWhole(q, s[..i]);
      if i < q.capacity - |q.held| {
        FitsWhole(q, s[..i + 1]);
        FitsWhole(Do(q, PushN(s[..i])).0, [s[i]]);
      } else {
        var held := Do(q, PushN(s[..i])).0.held;
        assert held + [s[i]][..0] == held;
      }
    }
  }

  // ----- the buffer -----

  class Buffer {
    var data: array<byte>
    var first: nat
    var last: nat
    var count: nat
    var overlap: bool

    predicate Valid()
      reads this, data
    {
      first < data.Length && count <= data.Length && last == Slot(first, count, data.Length)
    }

    ghost function Contents(): (s: bytes)
      requires Valid()
      reads this, data
    {
      Live(data[..], first, count)
    }

    /** The queue this buffer stands for. */
    ghost function State(): (q: Queue)
      requires Valid()
      reads this, data
      ensures |q.held| <= q.capacity
    {
      Queue(Contents(), data.Length, overlap)
    }

    constructor (sz: nat)
      ensures Valid() && fresh(data)
      ensures State() == Queue([], if sz < 1 then 1 else sz, false)
    {
      data := new byte[if sz < 1 then 1 else sz](_ => 0);
      first, last, count, overlap := 0, 0, 0, false;
      new;
      assert Contents() == [];
    }

    predicate Full()
      reads this, data
    {
      !overlap && count == data.Length
    }

    function Increment(p: nat): (next: nat)
      requires p < data.Length
      reads this, data
      ensures next == Slot(p, 1, data.Length)
    {
      if p + 1 == data.Length then 0 else p + 1
    }

    function IncrementBy(p: nat, n: nat): nat
      reads this, data
    {
      if p + n == data.Length then 0 else p + n
    }

    /** How much the fast path of pushN may write at once. */
    function Space(): (n: nat)
      requires last < data.Length && first < data.Length
      reads this, data
      ensures Valid() ==> n <= data.Length - last
      ensures Valid() && !overlap ==> n <= data.Length - count
    {
      if overlap then data.Length - last
      else if last > first then data.Length - last
      else if last < first then first - last
      else if count > 0 then 0
      else data.Length - last
    }

    /** No live byte is at this position. */
    ghost predicate IsFree(p: nat)
      reads this, data
    {
      first < data.Length && count <= data.Length && forall i :: 0 <= i < count ==> Slot(first, i, data.Length) != p
    }

    /**
     Space is exactly the contiguous room: from the last position on so many are free, and then comes
     the end of the array or a live byte. In overlap mode nothing is too precious to overwrite.
     */
    lemma SpaceIsContiguousRoom()
      requires Valid()
      ensures var end := last + Space();
              end <= data.Length &&
              (overlap ==> end == data.Length) &&
              (!overlap ==> (forall p :: last <= p < end ==> IsFree(p)) && (end < data.Length ==> !IsFree(end)))
    {
      if !overlap && last + Space() < data.Length {
        assert Slot(first, 0, data.Length) == first;
      }
    }

    method Append(c: byte) returns (ok: bool)
      requires Valid()
      modifies this, data
      ensures Valid() && data == old(data)
      ensures (State(), Reply(ok, [])) == Do(old(State()), Push(c))
    {
      hide Live, Slot;
      ghost var q, d := State(), data[..];
      if Full() {
        assert q.held + [c][..0] == q.held;
        return false;
      }
      AppendLive(d, first, count, c);
      data[last] := c;
      assert data[..] == d[last := c];
      last := Increment(last);
      if count < data.Length {
        SlotNext(first, count, data.Length);
        FitsWhole(q, [c]);
        count := count + 1;
      } else {
        SlotAround(first, data.Length);
        first := Increment(first);
      }
      ok := true;
    }

    /** pushN: what fits contiguously is copied at once, anything else goes byte by byte. */
    method PushMany(s: bytes) returns (ok: bool)
      requires Valid()
      modifies this, data
      ensures data == old(data) && overlap == old(overlap)
      ensures Valid() <==> !(old(overlap) && |s| <= old(Space()) && old(count) + |s| > data.Length)
      ensures Valid() ==> (State(), Reply(ok, [])) == Do(old(State()), PushN(s))
      ensures !Valid() ==> ok && count == old(count) + |s|
    {
      hide Slot, Live, Keep;
      if |s| <= Space() {
        FitsWhole(State(), s);
        CopyIn(s);
        ok := true;
      } else {
        ok := PushEach(s);
      }
    }

    method PushEach(s: bytes) returns (ok: bool)
      requires Valid()
      modifies this, data
      ensures Valid() && data == old(data)
      ensures (State(), Reply(ok, [])) == Do(old(State()), PushN(s))
    {
      hide Slot, Live, Keep, Valid;
      ghost var q := State();
      PushNone(q);
      for i := 0 to |s|
        invariant Valid() && data == old(data)
        invariant State() == Do(q, PushN(s[..i])).0
        invariant q.overlap || i <= q.capacity - |q.held|
      {
        PushOneMore(q, s, i);
        ok := Append(s[i]);
        if !ok {
          return;
        }
      }
      assert s[..|s|] == s;
      ok := true;
    }

    method CopyIn(s: bytes)
      requires Valid() && |s| <= Space()
      modifies this, data
      ensures data == old(data) && overlap == old(overlap)
      ensures count == old(count) + |s|
      ensures Valid() <==> old(count) + |s| <= data.Length
      ensures Valid() ==> Contents() == old(Contents()) + s
    {
      ghost var d := data[..];
      forall i | 0 <= i < |s| {
        data[last + i] := s[i];
      }
      if count + |s| <= data.Length {
        WriteLive(d, data[..], first, count, s);
      }
      last := IncrementBy(last, |s|);
      count := count + |s|;
    }

    method PeekAt() returns (ok: bool, c: byte)
      requires Valid()
      ensures (State(), Reply(ok, if ok then [c] else [])) == Do(State(), Peek)
    {
      if count == 0 {
        return false, 0;
      }
      ok, c := true, data[first];
    }

    /** pop into a byte of the caller. */
    method Take() returns (ok: bool, c: byte)
      requires Valid()
      modifies this
      ensures Valid() && data == old(data)
      ensures (State(), Reply(ok, if ok then [c] else [])) == Do(old(State()), Pop)
    {
      if count == 0 {
        return false, 0;
      }
      c := data[first];
      DropLive(data[..], first, count, 1);
      first := Increment(first);
      count := count - 1;
      ok := true;
    }

    /** popN: all or nothing. */
    method TakeMany(n: nat) returns (ok: bool, out: bytes)
      requires Valid()
      modifies this
      ensures Valid() && data == old(data)
      ensures (State(), Reply(ok, out)) == Do(old(State()), PopN(n))
    {
      out := [];
      if count < n {
        return false, out;
      }
      if last > first {
        out := TakeRun(n);
      } else {
        out := TakeEach(n);
      }
      ok := true;
    }

    method TakeRun(n: nat) returns (out: bytes)
      requires Valid() && n <= count && last > first
      modifies this
      ensures Valid() && data == old(data)
      ensures out == old(Contents())[..n] && State() == old(State()).(held := old(Contents())[n..])
    {
      DropLive(data[..], first, count, n);
      out := data[first..first + n];
      first := IncrementBy(first, n);
      count := count - n;
    }

    method TakeEach(n: nat) returns (out: bytes)
      requires Valid() && n <= count
      modifies this
      ensures Valid() && data == old(data)
      ensures out == old(Contents())[..n] && State() == old(State()).(held := old(Contents())[n..])
    {
      hide Slot, Live;
      ghost var q := State();
      out := [];
      var left := n;
      while count > 0 && left > 0
        invariant Valid() && data == old(data) && 0 <= left <= n
        invariant count == |q.held| - (n - left)
        invariant out == q.held[..n - left] && State() == q.(held := q.held[n - left..])
        decreases left
      {
        left := left - 1;
        var ok, c := Take();
        out := out + [c];
      }
    }

    /** The do-while loop: it visits each live byte once, oldest first, also when last equals first. */
    method Iterate() returns (visited: bytes)
      requires Valid()
      ensures visited == Contents()
    {
      visited := [];
      if count == 0 {
        return;
      }
      var at := first;
      while true
        invariant |visited| < count && at == Slot(first, |visited|, data.Length)
        invariant visited == Contents()[..|visited|]
        decreases count - |visited|
      {
        visited := visited + [data[at]];
        at := Increment(at);
        if at == last {
          break;
        }
      }
    }

    method SetOverlap(enabled: bool)
      requires Valid()
      modifies this`overlap
      ensures Valid() && State() == old(State()).(overlap := enabled)
    {
      overlap := enabled;
    }

    /**
     reallocate keeps the offsets of the first and last position, which is right exactly when the
     buffer does not grow or its contents do not reach around or up to the end of the old array.
     */
    method Reallocate(sz: nat)
      requires Valid()
      modifies this
      ensures sz <= old(data.Length) ==> data == old(data)
      ensures sz > old(data.Length) ==> fresh(data) && data.Length == sz
      ensures Valid() <==> sz <= old(data.Length) || old(count) == 0 || old(first < last)
      ensures Valid() ==>
                State() == old(State()).(capacity := if sz <= old(data.Length) then old(data.Length) else sz)
    {
      if sz <= data.Length {
        return;
      }
      var block := new byte[sz](i requires 0 <= i < sz reads this, data => if i < data.Length then data[i] else 0);
      data := block;
    }
  }

  // ----- whole runs -----

  function Final(q: Queue, ops: seq<Op>): (r: Queue)
    requires |q.held| <= q.capacity
    ensures |r.held| <= r.capacity == q.capacity
  {
    if ops == [] then q else Do(Final(q, ops[..|ops| - 1]), ops[|ops| - 1]).0
  }

  predicate Pops(op: Op) {
    op.Pop? || op.PopN?
  }

  /** The answers of a run, one for each call. */
  function Replies(q: Queue, ops: seq<Op>): seq<Reply>
    requires |q.held| <= q.capacity
  {
    if ops == [] then [] else
      Replies(q, ops[..|ops| - 1]) + [Do(Final(q, ops[..|ops| - 1]), ops[|ops| - 1]).1]
  }

  /** The bytes handed over by the pops of a run, in order. */
  function Taken(q: Queue, ops: seq<Op>): bytes
    requires |q.held| <= q.capacity
  {
    if ops == [] then [] else
      var op := ops[|ops| - 1];
      var before := ops[..|ops| - 1];
      Taken(q, before) + if Pops(op) then Do(Final(q, before), op).1.out else []
  }

  /** The bytes a push takes: with overlap off the first ones there is room for. */
  function Accepted(q: Queue, op: Op): bytes
    requires |q.held| <= q.capacity
  {
    match op
    case Push(c) => if q.overlap || |q.held| < q.capacity then [c] else []
    case PushN(s) => if q.overlap then s else s[..Least(|s|, q.capacity - |q.held|)]
    case _ => []
  }

  function Given(q: Queue, ops: seq<Op>): bytes
    requires |q.held| <= q.capacity
  {
    if ops == [] then [] else Given(q, ops[..|ops| - 1]) + Accepted(Final(q, ops[..|ops| - 1]), ops[|ops| - 1])
  }

  lemma OneOpConserves(q: Queue, op: Op)
    requires |q.held| <= q.capacity && !q.overlap
    ensures (if Pops(op) then Do(q, op).1.out else []) + Do(q, op).0.held == q.held + Accepted(q, op)
  {
    if op.Push? {
      assert [op.c][..1] == [op.c];
    }
  }

  lemma Shift(taken: bytes, held: bytes, start: bytes, given: bytes, out: bytes, next: bytes, more: bytes)
    requires taken + held == start + given && out + next == held + more
    ensures (taken + out) + next == start + (given + more)
  {
    assert (taken + out) + next == taken + (out + next);
    assert taken + (held + more) == (taken + held) + more;
    assert (start + given) + more == start + (given + more);
  }

  /** Over any run with overlap off: what was taken and what is held is what was there and what was accepted. */
  lemma {:induction false} RunsConserve(q: Queue, ops: seq<Op>)
    requires |q.held| <= q.capacity && !q.overlap && Overlap(true) !in ops
    ensures !Final(q, ops).overlap
    ensures Taken(q, ops) + Final(q, ops).held == q.held + Given(q, ops)
  {
    if ops != [] {
      var before, op := ops[..|ops| - 1], ops[|ops| - 1];
      RunsConserve(q, before);
      var p := Final(q, before);
      assert op in ops && !Do(p, op).0.overlap;
      hide Do, Accepted;
      var out := if Pops(op) then Do(p, op).1.out else [];
      OneOpConserves(p, op);
      Shift(Taken(q, before), p.held, q.held, Given(q, before), out, Do(p, op).0.held, Accepted(p, op));
    } else {
      assert q.held + [] == q.held && [] + q.held == q.held;
    }
  }

  function Pushes(s: bytes): seq<Op> {
    seq(|s|, i requires 0 <= i < |s| => Push(s[i]))
  }

  /** With overlap on, single pushes keep exactly the last bytes there is room for. */
  lemma {:induction false} PushesKeepLast(q: Queue, s: bytes)
    requires |q.held| <= q.capacity && q.overlap
    ensures Final(q, Pushes(s)) == q.(held := Keep(q.held + s, q.capacity))
  {
    if s == [] {
      assert q.held + s == q.held;
    } else {
      var n := |s| - 1;
      PushesKeepLast(q, s[..n]);
      hide Keep;
      assert Pushes(s)[..n] == Pushes(s[..n]) && Pushes(s)[n] == Push(s[n]);
      KeepStepwise(q.held + s[..n], [s[n]], q.capacity);
      assert q.held + s[..n] + [s[n]] == q.held + s;
    }
  }

  /**
   What the queue does with one byte: a push adds it at the end, refuses it when there is no room, or
   in overlap mode drops the oldest; a pop gives the first byte and takes it away, a peek only shows
   what a pop would give.
   */
  lemma OneByte(q: Queue, c: byte)
    requires |q.held| <= q.capacity
    ensures |q.held| < q.capacity ==> Do(q, Push(c)) == (q.(held := q.held + [c]), Reply(true, []))
    ensures |q.held| == q.capacity && !q.overlap ==> Do(q, Push(c)) == (q, Reply(false, []))
    ensures |q.held| == q.capacity >= 1 && q.overlap ==>
              Do(q, Push(c)) == (q.(held := q.held[1..] + [c]), Reply(true, []))
    ensures |q.held| >= 1 ==>
              var r := Do(q, Pop); r.1.ok && r.1.out + r.0.held == q.held && |r.1.out| == 1
    ensures q.held == [] ==> Do(q, Pop) == (q, Reply(false, []))
    ensures Do(q, Peek) == (q, Do(q, Pop).1)
  {
    FitsWhole(q, [c]);
    if |q.held| == q.capacity {
      assert q.held + [c][..0] == q.held;
      assert q.held != [] ==> (q.held + [c])[1..] == q.held[1..] + [c];
    }
  }

  lemma FullStays(q: Queue, s: bytes, c: byte)
    requires |q.held| <= q.capacity && !q.overlap && |s| > q.capacity - |q.held|
    ensures Do(q, PushN(s)) == (q.(held := q.held + s[..q.capacity - |q.held|]), Reply(false, []))
    ensures Do(Do(q, PushN(s)).0, Push(c)) == (Do(q, PushN(s)).0, Reply(false, []))
  {
    OneByte(Do(q, PushN(s)).0, c);
  }

  /** A bulk push leaves what pushing byte by byte leaves. */
  lemma {:induction false} PushNIsPushes(q: Queue, s: bytes)
    requires |q.held| <= q.capacity
    ensures Final(q, Pushes(s)) == Do(q, PushN(s)).0
    decreases |s|
  {
    if s == [] {
      PushNone(q);
    } else {
      var n := |s| - 1;
      PushNIsPushes(q, s[..n]);
      assert Pushes(s)[..n] == Pushes(s[..n]) && Pushes(s)[n] == Push(s[n]);
      LastPush(q, s, n);
      hide Do;
    }
  }

  lemma LastPush(q: Queue, s: bytes, n: nat)
    requires |q.held| <= q.capacity && |s| == n + 1
    ensures Do(Do(q, PushN(s[..n])).0, Push(s[n])).0 == Do(q, PushN(s)).0
  {
    if q.overlap || n <= q.capacity - |q.held| {
      assert s[..n + 1] == s;
      PushOneMore(q, s, n);
      hide Do;
    } else {
      var room := q.capacity - |q.held|;
      assert s[..n][..room] == s[..room];
      FullStays(q, s[..n], s[n]);
      FullStays(q, s, s[n]);
      hide Do;
    }
  }

  /** It succeeds when none of the single pushes is refused. */
  lemma PushNSucceedsIff(q: Queue, s: bytes)
    requires |q.held| <= q.capacity
    ensures Do(q, PushN(s)).1.ok <==>
            forall i :: 0 <= i < |s| ==> Do(Final(q, Pushes(s[..i])), Push(s[i])).1.ok
  {
    forall i | 0 <= i < |s|
      ensures Do(Final(q, Pushes(s[..i])), Push(s[i])).1.ok <==> q.overlap || i < q.capacity - |q.held|
    {
      PushNIsPushes(q, s[..i]);
      PushOk(q, s[..i], s[i]);
      hide Do;
    }
    if s != [] && !q.overlap && |s| > q.capacity - |q.held| {
      var last := |s| - 1;
      assert !Do(Final(q, Pushes(s[..last])), Push(s[last])).1.ok;
    }
  }

  lemma PushOk(q: Queue, s: bytes, c: byte)
    requires |q.held| <= q.capacity
    ensures Do(Do(q, PushN(s)).0, Push(c)).1.ok <==> q.overlap || |s| < q.capacity - |q.held|
  {
  }

  function PopsOf(n: nat): seq<Op> {
    seq(n, _ => Pop)
  }

  lemma {:induction false} ManyPops(q: Queue, n: nat)
    requires n <= |q.held| <= q.capacity
    ensures Final(q, PopsOf(n)) == q.(held := q.held[n..]) && Taken(q, PopsOf(n)) == q.held[..n]
    decreases n
  {
    if n > 0 {
      ManyPops(q, n - 1);
      assert PopsOf(n)[..n - 1] == PopsOf(n - 1) && PopsOf(n)[n - 1] == Pop;
      assert q.held[n - 1..][1..] == q.held[n..] && q.held[..n - 1] + [q.held[n - 1]] == q.held[..n];
    }
  }

  /**
   A bulk pop of what is there hands over what so many pops hand over and leaves what they leave; a
   bulk pop of more is refused and changes nothing. A visit shows what popping everything would give.
   */
  lemma PopNIsPops(q: Queue, n: nat)
    requires |q.held| <= q.capacity
    ensures Do(q, PopN(n)) ==
            if n <= |q.held| then (Final(q, PopsOf(n)), Reply(true, Taken(q, PopsOf(n)))) else (q, Reply(false, []))
    ensures Do(q, Iterate) == (q, Reply(true, Taken(q, PopsOf(|q.held|))))
  {
    hide Final, Taken, PopsOf;
    ManyPops(q, |q.held|);
    assert q.held[..|q.held|] == q.held;
    if n <= |q.held| {
      ManyPops(q, n);
    }
  }

  /** The call that breaks a buffer: a bulk push in overlap mode whose fast path writes over live bytes. */
  predicate Breaks(b: Buffer, op: Op)
    requires b.Valid()
    reads b, b.data
  {
    op.PushN? && b.overlap && |op.s| <= b.Space() && b.count + |op.s| > b.data.Length
  }

  method Perform(b: Buffer, op: Op) returns (reply: Reply)
    requires b.Valid() && !Breaks(b, op)
    modifies b, b.data
    ensures b.Valid() && b.data == old(b.data)
    ensures (b.State(), reply) == Do(old(b.State()), op)
  {
    hide Slot, Live, Keep;
    var ok, out, c;
    match op {
      case Push(x) =>
        ok := b.Append(x);
        reply := Reply(ok, []);
      case PushN(s) =>
        ok := b.PushMany(s);
        reply := Reply(ok, []);
      case Peek =>
        ok, c := b.PeekAt();
        reply := Reply(ok, if ok then [c] else []);
      case Pop =>
        ok, c := b.Take();
        reply := Reply(ok, if ok then [c] else []);
      case PopN(n) =>
        ok, out := b.TakeMany(n);
        reply := Reply(ok, out);
      case Iterate =>
        out := b.Iterate();
        reply := Reply(true, out);
      case Overlap(on) =>
        b.SetOverlap(on);
        reply := Reply(true, []);
    }
  }

  /**
   Any run of calls on the buffer is the run of the bounded queue, answer by answer, up to the first
   call that breaks the buffer.
   */
  method Run(b: Buffer, ops: seq<Op>) returns (done: nat, replies: seq<Reply>)
    requires b.Valid()
    modifies b, b.data
    ensures b.Valid() && done <= |ops| && (done < |ops| ==> Breaks(b, ops[done]))
    ensures b.State() == Final(old(b.State()), ops[..done])
    ensures replies == Replies(old(b.State()), ops[..done])
  {
    hide Do;
    done, replies := 0, [];
    ghost var q := b.State();
    while done < |ops| && !Breaks(b, ops[done])
      invariant b.Valid() && b.data == old(b.data) && done <= |ops|
      invariant b.State() == Final(q, ops[..done]) && replies == Replies(q, ops[..done])
    {
      assert ops[..done + 1][..done] == ops[..done];
      var reply := Perform(b, ops[done]);
      replies := replies + [reply];
      done := done + 1;
    }
  }

  // ----- buffers that get broken -----

  method FilledBuffer(s: bytes) returns (b: Buffer)
    requires s != []
    ensures fresh(b) && fresh(b.data) && b.Valid() && b.State() == Queue(s, |s|, false)
  {
    b := new Buffer(|s|);
    FitsWhole(b.State(), s);
    assert [] + s == s;
    var ok := b.PushMany(s);
  }

  /** From a new buffer of any size: filled, with overlap on, one more bulk push makes it hold too much. */
  method BulkPushBreaks(s: bytes, c: byte) returns (b: Buffer)
    requires s != []
    ensures fresh(b) && !b.Valid() && b.count == b.data.Length + 1
  {
    b := FilledBuffer(s);
    b.SetOverlap(true);
    var ok := b.PushMany([c]);
  }

  /** From a new buffer of any size: filled and then made larger. */
  method ReallocateBreaks(s: bytes) returns (b: Buffer)
    requires s != []
    ensures fresh(b) && !b.Valid() && b.data.Length == |s| + 1
  {
    b := FilledBuffer(s);
    b.Reallocate(|s| + 1);
  }
}
