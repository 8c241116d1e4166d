/** The comparison operators on JSON values: a strict total order on values without floats. */
module JsonOrder {
  import opened Bytes
  import opened JsonValue

  /** The order of the types of two values, for values of different types. */
  function TypeRank(v: Json): nat {
    match v
    case Null => 0
    case Boolean(_) => 1
    case Integer(_) => 2
    case Float(_) => 2
    case Object(_) => 3
    case Array(_) => 4
    case String(_) => 5
  }

  function Size(v: Json): nat {
    match v
    case Array(es) => 1 + Sizes(es)
    case Object(ms) => 1 + MemberSizes(ms)
    case _ => 1
  }

  function Sizes(es: seq<Json>): nat {
    if es == [] then 0 else 1 + Size(es[0]) + Sizes(es[1..])
  }

  function MemberSizes(ms: seq<Member>): nat {
    if ms == [] then 0 else 1 + Size(ms[0].value) + MemberSizes(ms[1..])
  }

  predicate Less(a: Json, b: Json)
    requires NoFloats(a) && NoFloats(b)
    decreases Size(a) + Size(b), 0
  {
    match (a, b)
    case (Array(xs), Array(ys)) => LessElements(xs, ys)
    case (Object(ms), Object(ns)) => LessMembers(ms, ns)
    case (Null, Null) => false
    case (String(s), String(t)) => BytesLess(s, t)
    case (Boolean(p), Boolean(q)) => !p && q
    case (Integer(i), Integer(j)) => i < j
    case _ => TypeRank(a) < TypeRank(b)
  }

  /** Lexicographic comparison, which asks `<` both ways at every position. */
  predicate LessElements(xs: seq<Json>, ys: seq<Json>)
    requires forall e :: e in xs || e in ys ==> NoFloats(e)
    decreases Sizes(xs) + Sizes(ys)
  {
    if ys == [] then false
    else if xs == [] then true
    else if Less(xs[0], ys[0]) then true
    else if Less(ys[0], xs[0]) then false
    else LessElements(xs[1..], ys[1..])
  }

  predicate LessMembers(ms: seq<Member>, ns: seq<Member>)
    requires forall m :: m in ms || m in ns ==> NoFloats(m.value)
    decreases MemberSizes(ms) + MemberSizes(ns)
  {
    if ns == [] then false
    else if ms == [] then true
    else if LessPair(ms[0], ns[0]) then true
    else if LessPair(ns[0], ms[0]) then false
    else LessMembers(ms[1..], ns[1..])
  }

  predicate LessPair(m: Member, n: Member)
    requires NoFloats(m.value) && NoFloats(n.value)
    decreases Size(m.value) + Size(n.value), 1
  {
    BytesLess(m.key, n.key) || (!BytesLess(n.key, m.key) && Less(m.value, n.value))
  }

  predicate Equal(a: Json, b: Json)
    requires NoFloats(a) && NoFloats(b)
    decreases a, 0
  {
    match (a, b)
    case (Array(xs), Array(ys)) => |xs| == |ys| && EqualElements(xs, ys)
    case (Object(ms), Object(ns)) => |ms| == |ns| && EqualMembers(ms, ns)
    case (Null, Null) => true
    case (String(s), String(t)) => s == t
    case (Boolean(p), Boolean(q)) => p == q
    case (Integer(i), Integer(j)) => i == j
    case _ => false
  }

  predicate EqualElements(xs: seq<Json>, ys: seq<Json>)
    requires |xs| == |ys| && forall e :: e in xs || e in ys ==> NoFloats(e)
    decreases xs, 1
  {
    xs == [] || (Equal(xs[0], ys[0]) && EqualElements(xs[1..], ys[1..]))
  }

  predicate EqualMembers(ms: seq<Member>, ns: seq<Member>)
    requires |ms| == |ns| && forall m :: m in ms || m in ns ==> NoFloats(m.value)
    decreases ms, 1
  {
    ms == [] || (ms[0].key == ns[0].key && Equal(ms[0].value, ns[0].value) && EqualMembers(ms[1..], ns[1..]))
  }

  // ----- equality is identity -----

  lemma {:induction false} EqualIsIdentity(a: Json, b: Json)
    requires NoFloats(a) && NoFloats(b)
    ensures Equal(a, b) <==> a == b
    decreases a, 0
  {
    match (a, b)
    case (Array(xs), Array(ys)) => if |xs| == |ys| { EqualElementsIsIdentity(xs, ys); }
    case (Object(ms), Object(ns)) => if |ms| == |ns| { EqualMembersIsIdentity(ms, ns); }
    case _ =>
  }

  lemma {:induction false} EqualElementsIsIdentity(xs: seq<Json>, ys: seq<Json>)
    requires |xs| == |ys| && forall e :: e in xs || e in ys ==> NoFloats(e)
    ensures EqualElements(xs, ys) <==> xs == ys
    decreases xs, 1
  {
    hide NoFloats, Equal;
    if xs != [] {
      EqualIsIdentity(xs[0], ys[0]);
      EqualElementsIsIdentity(xs[1..], ys[1..]);
      assert xs == [xs[0]] + xs[1..] && ys == [ys[0]] + ys[1..];
    }
  }

  lemma {:induction false} EqualMembersIsIdentity(ms: seq<Member>, ns: seq<Member>)
    requires |ms| == |ns| && forall m :: m in ms || m in ns ==> NoFloats(m.value)
    ensures EqualMembers(ms, ns) <==> ms == ns
    decreases ms, 1
  {
    hide NoFloats, Equal;
    if ms != [] {
      EqualIsIdentity(ms[0].value, ns[0].value);
      EqualMembersIsIdentity(ms[1..], ns[1..]);
      assert ms == [ms[0]] + ms[1..] && ns == [ns[0]] + ns[1..];
    }
  }

  // ----- trichotomy -----

  lemma {:induction false} LessTrichotomy(a: Json, b: Json)
    requires NoFloats(a) && NoFloats(b)
    ensures if a == b then !Less(a, b) && !Less(b, a) else Less(a, b) <==> !Less(b, a)
    decreases Size(a) + Size(b), 0
  {
    match (a, b)
    case (Array(xs), Array(ys)) => ElementsTrichotomy(xs, ys);
    case (Object(ms), Object(ns)) => MembersTrichotomy(ms, ns);
    case (String(s), String(t)) => BytesLessTotal(s, t);
    case _ =>
  }

  lemma {:induction false} ElementsTrichotomy(xs: seq<Json>, ys: seq<Json>)
    requires forall e :: e in xs || e in ys ==> NoFloats(e)
    ensures if xs == ys then !LessElements(xs, ys) && !LessElements(ys, xs)
            else LessElements(xs, ys) <==> !LessElements(ys, xs)
    decreases Sizes(xs) + Sizes(ys), 0
  {
    hide NoFloats, Less;
    if xs != [] && ys != [] {
      LessTrichotomy(xs[0], ys[0]);
      ElementsTrichotomy(xs[1..], ys[1..]);
      assert xs == [xs[0]] + xs[1..] && ys == [ys[0]] + ys[1..];
    }
  }

  lemma PairTrichotomy(m: Member, n: Member)
    requires NoFloats(m.value) && NoFloats(n.value)
    ensures if m == n then !LessPair(m, n) && !LessPair(n, m) else LessPair(m, n) <==> !LessPair(n, m)
    decreases Size(m.value) + Size(n.value), 1
  {
    hide NoFloats, Less, BytesLess;
    BytesLessTotal(m.key, n.key);
    LessTrichotomy(m.value, n.value);
  }

  lemma {:induction false} MembersTrichotomy(ms: seq<Member>, ns: seq<Member>)
    requires forall m :: m in ms || m in ns ==> NoFloats(m.value)
    ensures if ms == ns then !LessMembers(ms, ns) && !LessMembers(ns, ms)
            else LessMembers(ms, ns) <==> !LessMembers(ns, ms)
    decreases MemberSizes(ms) + MemberSizes(ns), 0
  {
    hide NoFloats, LessPair;
    if ms != [] && ns != [] {
      PairTrichotomy(ms[0], ns[0]);
      MembersTrichotomy(ms[1..], ns[1..]);
      assert ms == [ms[0]] + ms[1..] && ns == [ns[0]] + ns[1..];
    }
  }

  // ----- transitivity -----

  lemma {:induction false} LessTransitive(a: Json, b: Json, c: Json)
    requires NoFloats(a) && NoFloats(b) && NoFloats(c)
    requires Less(a, b) && Less(b, c)
    ensures Less(a, c)
    decreases Size(a), 0
  {
    match (a, c)
    case (Array(xs), Array(zs)) => ElementsTransitive(xs, b.elements, zs);
    case (Object(ms), Object(os)) => MembersTransitive(ms, b.members, os);
    case (String(s), String(u)) => BytesLessTransitive(s, b.s, u);
    case _ =>
  }

  lemma {:induction false} ElementsTransitive(xs: seq<Json>, ys: seq<Json>, zs: seq<Json>)
    requires forall e :: e in xs || e in ys || e in zs ==> NoFloats(e)
    requires LessElements(xs, ys) && LessElements(ys, zs)
    ensures LessElements(xs, zs)
    decreases Sizes(xs), 0
  {
    hide NoFloats, Less;
    if xs != [] {
      LessTrichotomy(xs[0], ys[0]);
      LessTrichotomy(ys[0], zs[0]);
      LessTrichotomy(xs[0], zs[0]);
      if Less(xs[0], ys[0]) && Less(ys[0], zs[0]) {
        LessTransitive(xs[0], ys[0], zs[0]);
      } else if xs[0] == ys[0] == zs[0] {
        ElementsTransitive(xs[1..], ys[1..], zs[1..]);
      }
    }
  }

  lemma PairTransitive(m: Member, n: Member, o: Member)
    requires NoFloats(m.value) && NoFloats(n.value) && NoFloats(o.value)
    requires LessPair(m, n) && LessPair(n, o)
    ensures LessPair(m, o)
    decreases Size(m.value), 1
  {
    hide NoFloats, Less, BytesLess;
    BytesLessTotal(m.key, n.key);
    BytesLessTotal(n.key, o.key);
    BytesLessTotal(m.key, o.key);
    if BytesLess(m.key, n.key) && BytesLess(n.key, o.key) {
      BytesLessTransitive(m.key, n.key, o.key);
    } else if m.key == n.key == o.key {
      LessTransitive(m.value, n.value, o.value);
    }
  }

  lemma {:induction false} MembersTransitive(ms: seq<Member>, ns: seq<Member>, os: seq<Member>)
    requires forall m :: m in ms || m in ns || m in os ==> NoFloats(m.value)
    requires LessMembers(ms, ns) && LessMembers(ns, os)
    ensures LessMembers(ms, os)
    decreases MemberSizes(ms), 0
  {
    hide NoFloats, LessPair;
    if ms != [] {
      PairTrichotomy(ms[0], ns[0]);
      PairTrichotomy(ns[0], os[0]);
      PairTrichotomy(ms[0], os[0]);
      if LessPair(ms[0], ns[0]) && LessPair(ns[0], os[0]) {
        PairTransitive(ms[0], ns[0], os[0]);
      } else if ms[0] == ns[0] == os[0] {
        MembersTransitive(ms[1..], ns[1..], os[1..]);
      }
    }
  }

  /** Of `a < b`, `a == b` and `b < a` exactly one holds, and `<` is transitive. */
  lemma StrictTotalOrder(a: Json, b: Json, c: Json)
    requires NoFloats(a) && NoFloats(b) && NoFloats(c)
    ensures Less(a, b) || Equal(a, b) || Less(b, a)
    ensures !(Less(a, b) && Equal(a, b)) && !(Less(a, b) && Less(b, a)) && !(Equal(a, b) && Less(b, a))
    ensures Less(a, b) && Less(b, c) ==> Less(a, c)
  {
    hide Less, Equal, NoFloats;
    EqualIsIdentity(a, b);
    LessTrichotomy(a, b);
    if Less(a, b) && Less(b, c) {
      LessTransitive(a, b, c);
    }
  }

  // ----- which way the order goes -----

  /** Null comes before booleans, they before numbers, then objects, arrays and strings. */
  lemma TypesInOrder(a: Json, b: Json)
    requires NoFloats(a) && NoFloats(b)
    ensures a.Null? && !b.Null? ==> Less(a, b)
    ensures a.Boolean? && (b.Integer? || b.Object? || b.Array? || b.String?) ==> Less(a, b)
    ensures a.Integer? && (b.Object? || b.Array? || b.String?) ==> Less(a, b)
    ensures a.Object? && (b.Array? || b.String?) ==> Less(a, b)
    ensures a.Array? && b.String? ==> Less(a, b)
  {
  }

  lemma ScalarsInOrder(i: int, j: int, s: bytes, t: bytes)
    ensures Less(Boolean(false), Boolean(true))
    ensures i < j ==> Less(Integer(i), Integer(j))
    ensures Less(String(s), String(t)) <==> exists k: nat :: SmallerAt(s, t, k)
  {
    BytesLessMeans(s, t);
  }

  /** The two agree in front of position k, and there xs ends or has the smaller element. */
  predicate SmallerElementAt(xs: seq<Json>, ys: seq<Json>, k: nat)
    requires forall e :: e in xs || e in ys ==> NoFloats(e)
  {
    k <= |xs| && k < |ys| && xs[..k] == ys[..k] && (k == |xs| || Less(xs[k], ys[k]))
  }

  predicate SmallerMemberAt(ms: seq<Member>, ns: seq<Member>, k: nat)
    requires forall m :: m in ms || m in ns ==> NoFloats(m.value)
  {
    k <= |ms| && k < |ns| && ms[..k] == ns[..k] &&
    (k == |ms| || BytesLess(ms[k].key, ns[k].key) ||
     (ms[k].key == ns[k].key && Less(ms[k].value, ns[k].value)))
  }

  lemma {:induction false} ElementDecides(xs: seq<Json>, ys: seq<Json>, k: nat)
    requires forall e :: e in xs || e in ys ==> NoFloats(e)
    requires SmallerElementAt(xs, ys, k)
    ensures Less(Array(xs), Array(ys))
    decreases k
  {
    hide NoFloats, Less;
    if k > 0 {
      assert xs[0] == xs[..k][0] == ys[..k][0] == ys[0];
      assert xs[1..][..k - 1] == xs[..k][1..] && ys[1..][..k - 1] == ys[..k][1..];
      LessTrichotomy(xs[0], ys[0]);
      ElementDecides(xs[1..], ys[1..], k - 1);
      ArraysCompare(xs[1..], ys[1..]);
    }
    ArraysCompare(xs, ys);
  }

  lemma ArraysCompare(xs: seq<Json>, ys: seq<Json>)
    requires forall e :: e in xs || e in ys ==> NoFloats(e)
    ensures Less(Array(xs), Array(ys)) <==> LessElements(xs, ys)
  {
    hide LessElements;
  }

  lemma ObjectsCompare(ms: seq<Member>, ns: seq<Member>)
    requires forall m :: m in ms || m in ns ==> NoFloats(m.value)
    ensures Less(Object(ms), Object(ns)) <==> LessMembers(ms, ns)
  {
    hide LessMembers;
  }

  lemma {:induction false} FirstElement(xs: seq<Json>, ys: seq<Json>) returns (k: nat)
    requires forall e :: e in xs || e in ys ==> NoFloats(e)
    requires LessElements(xs, ys)
    ensures SmallerElementAt(xs, ys, k)
    decreases |xs|
  {
    hide NoFloats, Less;
    k := 0;
    if xs != [] && !Less(xs[0], ys[0]) {
      LessTrichotomy(xs[0], ys[0]);
      k := FirstElement(xs[1..], ys[1..]);
      assert xs[..k + 1] == [xs[0]] + xs[1..][..k] && ys[..k + 1] == [ys[0]] + ys[1..][..k];
      k := k + 1;
    }
  }

  /** Arrays: the first element that differs decides, and a proper prefix comes first. */
  lemma ArraysInOrder(xs: seq<Json>, ys: seq<Json>)
    requires forall e :: e in xs || e in ys ==> NoFloats(e)
    ensures Less(Array(xs), Array(ys)) <==> exists k: nat :: SmallerElementAt(xs, ys, k)
  {
    hide NoFloats, Less, LessElements, SmallerElementAt;
    ArraysCompare(xs, ys);
    if LessElements(xs, ys) {
      var k := FirstElement(xs, ys);
    } else if k: nat :| SmallerElementAt(xs, ys, k) {
      ElementDecides(xs, ys, k);
    }
  }

  lemma PairMeans(m: Member, n: Member)
    requires NoFloats(m.value) && NoFloats(n.value)
    ensures LessPair(m, n) <==> BytesLess(m.key, n.key) || (m.key == n.key && Less(m.value, n.value))
  {
    hide NoFloats, Less, BytesLess;
    BytesLessTotal(m.key, n.key);
  }

  lemma {:induction false} MemberDecides(ms: seq<Member>, ns: seq<Member>, k: nat)
    requires forall m :: m in ms || m in ns ==> NoFloats(m.value)
    requires SmallerMemberAt(ms, ns, k)
    ensures LessMembers(ms, ns)
    decreases k
  {
    hide NoFloats, Less, LessPair, BytesLess;
    if k > 0 {
      assert ms[0] == ms[..k][0] == ns[..k][0] == ns[0];
      assert ms[1..][..k - 1] == ms[..k][1..] && ns[1..][..k - 1] == ns[..k][1..];
      PairTrichotomy(ms[0], ns[0]);
      MemberDecides(ms[1..], ns[1..], k - 1);
    } else if ms != [] {
      PairMeans(ms[0], ns[0]);
    }
  }

  lemma {:induction false} FirstMember(ms: seq<Member>, ns: seq<Member>) returns (k: nat)
    requires forall m :: m in ms || m in ns ==> NoFloats(m.value)
    requires LessMembers(ms, ns)
    ensures SmallerMemberAt(ms, ns, k)
    decreases |ms|
  {
    hide NoFloats, Less, LessPair, BytesLess;
    k := 0;
    if ms != [] {
      PairMeans(ms[0], ns[0]);
      if !LessPair(ms[0], ns[0]) {
        PairTrichotomy(ms[0], ns[0]);
        k := FirstMember(ms[1..], ns[1..]);
        assert ms[..k + 1] == [ms[0]] + ms[1..][..k] && ns[..k + 1] == [ns[0]] + ns[1..][..k];
        k := k + 1;
      }
    }
  }

  /** Objects: the first member that differs decides, by its key and then by its value. */
  lemma ObjectsInOrder(ms: seq<Member>, ns: seq<Member>)
    requires forall m :: m in ms || m in ns ==> NoFloats(m.value)
    ensures Less(Object(ms), Object(ns)) <==> exists k: nat :: SmallerMemberAt(ms, ns, k)
  {
    hide NoFloats, Less, LessMembers, SmallerMemberAt;
    ObjectsCompare(ms, ns);
    if LessMembers(ms, ns) {
      var k := FirstMember(ms, ns);
    } else if k: nat :| SmallerMemberAt(ms, ns, k) {
      MemberDecides(ms, ns, k);
    }
  }
}
