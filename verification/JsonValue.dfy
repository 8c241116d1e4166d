/** JSON values, and the key-ordered members of an object. */
module JsonValue {
  import opened Bytes

  /**
   A value. Members of an object are kept in the order of their keys. `Float` is a number that is no
   64-bit integer; the rounding to a floating-point number is not part of the model.
   */
  datatype Json =
    | Null
    | Boolean(b: bool)
    | Integer(i: int)
    | Float(x: real)
    | String(s: bytes)
    | Array(elements: seq<Json>)
    | Object(members: seq<Member>)

  datatype Member = Member(key: bytes, value: Json)

  predicate NoFloats(v: Json) {
    match v
    case Float(_) => false
    case Array(es) => forall e :: e in es ==> NoFloats(e)
    case Object(ms) => forall m :: m in ms ==> NoFloats(m.value)
    case _ => true
  }

  /** Lexicographic order of byte strings. */
  predicate BytesLess(a: bytes, b: bytes) {
    if b == [] then false
    else if a == [] then true
    else a[0] < b[0] || (a[0] == b[0] && BytesLess(a[1..], b[1..]))
  }

  /** Strictly ascending keys: what a std::map holds. */
  predicate KeyOrdered(ms: seq<Member>) {
    forall i, j :: 0 <= i < j < |ms| ==> BytesLess(ms[i].key, ms[j].key)
  }

  /** result[key] = value: replace the value of the key, or put a new member at its place. */
  function Assign(ms: seq<Member>, key: bytes, value: Json): seq<Member> {
    if ms == [] then [Member(key, value)]
    else if BytesLess(ms[0].key, key) then [ms[0]] + Assign(ms[1..], key, value)
    else if ms[0].key == key then [Member(key, value)] + ms[1..]
    else [Member(key, value)] + ms
  }

  lemma {:induction false} BytesLessTotal(a: bytes, b: bytes)
    ensures BytesLess(a, b) || a == b || BytesLess(b, a)
    ensures !(BytesLess(a, b) && BytesLess(b, a))
    ensures !BytesLess(a, a)
  {
    if a != [] {
      if b != [] {
        BytesLessTotal(a[1..], b[1..]);
        assert a == [a[0]] + a[1..] && b == [b[0]] + b[1..];
      } else {
        BytesLessTotal(a[1..], []);
      }
    }
  }

  /** The two agree in front of position k, and there a ends or has the smaller byte. */
  predicate SmallerAt(a: bytes, b: bytes, k: nat) {
    k <= |a| && k < |b| && a[..k] == b[..k] && (k == |a| || a[k] < b[k])
  }

  lemma {:induction false} SmallerAtDecides(a: bytes, b: bytes, k: nat)
    requires SmallerAt(a, b, k)
    ensures BytesLess(a, b)
    decreases k
  {
    if k > 0 {
      assert a[0] == a[..k][0] == b[..k][0] == b[0];
      assert a[1..][..k - 1] == a[..k][1..] && b[1..][..k - 1] == b[..k][1..];
      SmallerAtDecides(a[1..], b[1..], k - 1);
    }
  }

  lemma {:induction false} FirstSmaller(a: bytes, b: bytes) returns (k: nat)
    requires BytesLess(a, b)
    ensures SmallerAt(a, b, k)
  {
    k := 0;
    if a != [] && a[0] == b[0] {
      k := FirstSmaller(a[1..], b[1..]);
      assert a[..k + 1] == [a[0]] + a[1..][..k] && b[..k + 1] == [b[0]] + b[1..][..k];
      k := k + 1;
    }
  }

  /** The first byte that differs decides; a proper prefix comes first. */
  lemma BytesLessMeans(a: bytes, b: bytes)
    ensures BytesLess(a, b) <==> exists k: nat :: SmallerAt(a, b, k)
  {
    if BytesLess(a, b) {
      var k := FirstSmaller(a, b);
    } else if k: nat :| SmallerAt(a, b, k) {
      SmallerAtDecides(a, b, k);
    }
  }

  lemma {:induction false} BytesLessTransitive(a: bytes, b: bytes, c: bytes)
    requires BytesLess(a, b) && BytesLess(b, c)
    ensures BytesLess(a, c)
  {
    if a != [] && a[0] == b[0] && b[0] == c[0] {
      BytesLessTransitive(a[1..], b[1..], c[1..]);
    }
  }

  ghost function Lookup(ms: seq<Member>, key: bytes): Option<Json> {
    if ms == [] then None else if ms[0].key == key then Some(ms[0].value) else Lookup(ms[1..], key)
  }

  ghost predicate AllAbove(low: bytes, ms: seq<Member>) {
    forall i :: 0 <= i < |ms| ==> BytesLess(low, ms[i].key)
  }

  lemma ConsStaysAbove(low: bytes, m: Member, ms: seq<Member>)
    requires BytesLess(low, m.key) && AllAbove(low, ms)
    ensures AllAbove(low, [m] + ms)
  {
    hide BytesLess;
  }

  lemma {:induction false} AssignStaysAbove(low: bytes, ms: seq<Member>, key: bytes, value: Json)
    requires BytesLess(low, key) && AllAbove(low, ms)
    ensures AllAbove(low, Assign(ms, key, value))
  {
    hide BytesLess;
    if ms == [] {
    } else if BytesLess(ms[0].key, key) {
      AssignStaysAbove(low, ms[1..], key, value);
      ConsStaysAbove(low, ms[0], Assign(ms[1..], key, value));
    } else if ms[0].key == key {
      ConsStaysAbove(low, Member(key, value), ms[1..]);
    } else {
      ConsStaysAbove(low, Member(key, value), ms);
    }
  }

  lemma {:induction false} AssignKeepsOrder(ms: seq<Member>, key: bytes, value: Json)
    requires KeyOrdered(ms)
    ensures KeyOrdered(Assign(ms, key, value))
  {
    hide BytesLess;
    if ms == [] {
    } else if BytesLess(ms[0].key, key) {
      var tail := Assign(ms[1..], key, value);
      AssignKeepsOrder(ms[1..], key, value);
      AssignStaysAbove(ms[0].key, ms[1..], key, value);
      ConsKeepsOrder(ms[0], tail);
    } else if ms[0].key == key {
      ConsKeepsOrder(Member(key, value), ms[1..]);
    } else {
      BytesLessTotal(ms[0].key, key);
      forall j | 0 <= j < |ms| ensures BytesLess(key, ms[j].key) {
        if j > 0 {
          BytesLessTransitive(key, ms[0].key, ms[j].key);
        }
      }
      ConsKeepsOrder(Member(key, value), ms);
    }
  }

  lemma ConsKeepsOrder(m: Member, ms: seq<Member>)
    requires KeyOrdered(ms) && forall i :: 0 <= i < |ms| ==> BytesLess(m.key, ms[i].key)
    ensures KeyOrdered([m] + ms)
  {
    hide BytesLess;
    var r := [m] + ms;
    assert forall i :: 1 <= i < |r| ==> r[i] == ms[i - 1];
  }

  /** Assign keeps the order, gives the key its new value and no other key another one. */
  lemma {:induction false} AssignIsUpdate(ms: seq<Member>, key: bytes, value: Json, other: bytes)
    requires KeyOrdered(ms)
    ensures KeyOrdered(Assign(ms, key, value))
    ensures Lookup(Assign(ms, key, value), other) == if other == key then Some(value) else Lookup(ms, other)
  {
    hide BytesLess;
    AssignKeepsOrder(ms, key, value);
    if ms != [] {
      BytesLessTotal(ms[0].key, key);
      if BytesLess(ms[0].key, key) {
        AssignIsUpdate(ms[1..], key, value, other);
      }
    }
  }

  /** Appending a key above all others is what Assign does with it. */
  lemma {:induction false} AssignAppends(ms: seq<Member>, key: bytes, value: Json)
    requires forall i :: 0 <= i < |ms| ==> BytesLess(ms[i].key, key)
    ensures Assign(ms, key, value) == ms + [Member(key, value)]
  {
    if ms != [] {
      AssignAppends(ms[1..], key, value);
      assert ms == [ms[0]] + ms[1..];
    }
  }
}
