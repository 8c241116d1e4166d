/** The k-element subsets of {0, ..., n-1} as ascending index lists, enumerated in lexicographic order. */
module Subsets {

  predicate IsSubset(s: seq<nat>, n: nat) {
    |s| >= 1 &&
    (forall i :: 0 <= i < |s| ==> s[i] < n) &&
    (forall i, j :: 0 <= i < j < |s| ==> s[i] < s[j])
  }

  /** Lists of one length in lexicographic order: at the first difference a is smaller. */
  ghost predicate LexLess(a: seq<nat>, b: seq<nat>)
    requires |a| == |b|
  {
    exists i :: 0 <= i < |a| && LessAt(a, b, i)
  }

  predicate LessAt(a: seq<nat>, b: seq<nat>, i: nat)
    requires |a| == |b| && i < |a|
  {
    a[i] < b[i] && forall j :: 0 <= j < i ==> a[j] == b[j]
  }

  /** 0 to k-1: the first subset of its size. */
  function Range(k: nat): seq<nat> {
    seq(k, i => i)
  }

  /** is_last_subset. */
  predicate IsLast(s: seq<nat>, n: nat)
    requires IsSubset(s, n)
  {
    s[0] == n - |s|
  }

  // ----- what an ascending list can hold -----

  lemma {:induction false} AscendsByOne(s: seq<nat>, n: nat, i: nat, j: nat)
    requires IsSubset(s, n) && i <= j < |s|
    ensures s[i] + (j - i) <= s[j]
    decreases j - i
  {
    if i < j {
      AscendsByOne(s, n, i, j - 1);
    }
  }

  lemma Room(s: seq<nat>, n: nat, i: nat)
    requires IsSubset(s, n) && i < |s|
    ensures i <= s[i] <= n - |s| + i
  {
    AscendsByOne(s, n, 0, i);
    AscendsByOne(s, n, i, |s| - 1);
  }

  // ----- the order -----

  lemma FirstDifference(a: seq<nat>, b: seq<nat>) returns (i: nat)
    requires |a| == |b| && a != b
    ensures i < |a| && a[i] != b[i] && forall j :: 0 <= j < i ==> a[j] == b[j]
  {
    i := 0;
    while a[i] == b[i]
      invariant i < |a| && forall j :: 0 <= j < i ==> a[j] == b[j]
      decreases |a| - i
    {
      assert exists k :: i < k < |a| && a[k] != b[k];
      i := i + 1;
    }
  }

  lemma LexTotal(a: seq<nat>, b: seq<nat>)
    requires |a| == |b|
    ensures LexLess(a, b) || a == b || LexLess(b, a)
  {
    if a != b {
      var i := FirstDifference(a, b);
      assert LessAt(a, b, i) || LessAt(b, a, i);
    }
  }

  lemma LexAsymmetric(a: seq<nat>, b: seq<nat>)
    requires |a| == |b|
    ensures !(LexLess(a, b) && LexLess(b, a))
  {
  }

  lemma LexTransitive(a: seq<nat>, b: seq<nat>, c: seq<nat>)
    requires |a| == |b| == |c| && LexLess(a, b) && LexLess(b, c)
    ensures LexLess(a, c)
  {
    var i :| 0 <= i < |a| && LessAt(a, b, i);
    var j :| 0 <= j < |b| && LessAt(b, c, j);
    assert LessAt(a, c, if i < j then i else j);
  }

  // ----- first and last -----

  lemma FirstIsLeast(k: nat, n: nat, s: seq<nat>)
    requires 1 <= k <= n
    ensures IsSubset(Range(k), n)
    ensures IsSubset(s, n) && |s| == k ==> Range(k) == s || LexLess(Range(k), s)
  {
    if IsSubset(s, n) && |s| == k && Range(k) != s {
      var i := FirstDifference(Range(k), s);
      Room(s, n, i);
      assert LessAt(Range(k), s, i);
    }
  }

  lemma LastIsGreatest(s: seq<nat>, n: nat)
    requires IsSubset(s, n)
    ensures IsLast(s, n) <==> forall t :: IsSubset(t, n) && |t| == |s| ==> !LexLess(s, t)
  {
    if IsLast(s, n) {
      forall t | IsSubset(t, n) && |t| == |s| ensures !LexLess(s, t) {
        if LexLess(s, t) {
          var i :| 0 <= i < |s| && LessAt(s, t, i);
          AscendsByOne(s, n, 0, i);
          Room(t, n, i);
        }
      }
    } else {
      Room(s, n, 0);
      var p := PivotOf(s, n);
      SuccessorIsAbove(s, n, p);
    }
  }

  // ----- the successor -----

  /** The last position that can still be raised. */
  ghost predicate IsPivot(s: seq<nat>, n: nat, p: nat) {
    p < |s| && s[p] < n - |s| + p && forall j :: p < j < |s| ==> s[j] == n - |s| + j
  }

  lemma PivotOf(s: seq<nat>, n: nat) returns (p: nat)
    requires IsSubset(s, n) && !IsLast(s, n)
    ensures IsPivot(s, n, p)
  {
    p := |s| - 1;
    Room(s, n, p);
    while s[p] == n - |s| + p
      invariant p < |s| && s[p] <= n - |s| + p
      invariant forall j :: p < j < |s| ==> s[j] == n - |s| + j
      decreases p
    {
      assert p > 0;
      p := p - 1;
      Room(s, n, p);
    }
  }

  function RaisedAt(s: seq<nat>, p: nat): seq<nat>
    requires p < |s|
  {
    s[..p] + seq(|s| - p, i => s[p] + 1 + i)
  }

  lemma SuccessorIsAbove(s: seq<nat>, n: nat, p: nat)
    requires IsSubset(s, n) && IsPivot(s, n, p)
    ensures IsSubset(RaisedAt(s, p), n) && |RaisedAt(s, p)| == |s| && LexLess(s, RaisedAt(s, p))
  {
    var r := RaisedAt(s, p);
    assert LessAt(s, r, p);
  }

  /** b comes directly after a among the subsets of their size. */
  ghost predicate Follows(a: seq<nat>, b: seq<nat>, n: nat) {
    IsSubset(a, n) && IsSubset(b, n) && |a| == |b| && LexLess(a, b) &&
    forall t :: IsSubset(t, n) && |t| == |a| ==> !(LexLess(a, t) && LexLess(t, b))
  }

  lemma SuccessorFollows(s: seq<nat>, n: nat, p: nat)
    requires IsSubset(s, n) && IsPivot(s, n, p)
    ensures Follows(s, RaisedAt(s, p), n)
  {
    var r := RaisedAt(s, p);
    SuccessorIsAbove(s, n, p);
    forall t | IsSubset(t, n) && |t| == |s| ensures !(LexLess(s, t) && LexLess(t, r)) {
      if LexLess(s, t) && LexLess(t, r) {
        NothingBetween(s, n, p, t);
      }
    }
  }

  lemma NothingBetween(s: seq<nat>, n: nat, p: nat, t: seq<nat>)
    requires IsSubset(s, n) && IsPivot(s, n, p) && IsSubset(t, n) && |t| == |s|
    requires LexLess(s, t)
    ensures !LexLess(t, RaisedAt(s, p))
  {
    var r := RaisedAt(s, p);
    var i :| 0 <= i < |s| && LessAt(s, t, i);
    Room(t, n, i);
    assert i <= p;
    forall j | 0 <= j < |t| ensures !LessAt(t, r, j) {
      if j > p {
        AscendsByOne(t, n, p, j);
      }
    }
  }

  // ----- the operations -----

  method MakeFirstSubset(size: nat, n: nat) returns (a: array<nat>)
    requires 1 <= size <= n
    ensures fresh(a) && a[..] == Range(size)
  {
    a := new nat[size];
    for i := 0 to size
      invariant forall j :: 0 <= j < i ==> a[j] == j
    {
      a[i] := i;
    }
  }

  /** next_subset: rewrites the array to the subset that follows it. */
  method NextSubset(a: array<nat>, n: nat)
    requires IsSubset(a[..], n) && !IsLast(a[..], n)
    modifies a
    ensures Follows(old(a[..]), a[..], n)
  {
    ghost var s := a[..];
    var change := FirstIndexToChange(a, n);
    RaiseFrom(a, change);
    SuccessorFollows(s, n, change);
  }

  method FirstIndexToChange(a: array<nat>, n: nat) returns (change: nat)
    requires IsSubset(a[..], n) && !IsLast(a[..], n)
    ensures IsPivot(a[..], n, change)
  {
    ghost var s := a[..];
    var i := 1;
    Room(s, n, a.Length - 1);
    while a[a.Length - i] == n - i
      invariant 1 <= i <= a.Length
      invariant s[a.Length - i] <= n - i
      invariant forall j :: a.Length - i < j < a.Length ==> s[j] == n - |s| + j
      decreases a.Length - i
    {
      assert a.Length - i > 0;
      i := i + 1;
      Room(s, n, a.Length - i);
    }
    change := a.Length - i;
  }

  method RaiseFrom(a: array<nat>, change: nat)
    requires change < a.Length
    modifies a
    ensures a[..] == RaisedAt(old(a[..]), change)
  {
    ghost var s := a[..];
    a[change] := a[change] + 1;
    var p := a[change];
    for j := change + 1 to a.Length
      invariant p == s[change] + j - change
      invariant forall k :: 0 <= k < change ==> a[k] == s[k]
      invariant forall k :: change <= k < j ==> a[k] == s[change] + 1 + k - change
    {
      p := p + 1;
      a[j] := p;
    }
  }

  // ----- a measure: the enumeration ends -----

  function Power(n: nat, k: nat): nat {
    if k == 0 then 1 else n * Power(n, k - 1)
  }

  function Rank(s: seq<nat>, n: nat): nat {
    if s == [] then 0 else Rank(s[..|s| - 1], n) * n + s[|s| - 1]
  }

  lemma Carry(x: nat, y: nat, n: nat)
    requires x < y
    ensures x * n + n <= y * n
    decreases y
  {
    if x + 1 < y {
      Carry(x, y - 1, n);
    }
    assert y * n == (y - 1) * n + n;
  }

  lemma {:induction false} RankBelow(s: seq<nat>, n: nat)
    requires forall i :: 0 <= i < |s| ==> s[i] < n
    ensures Rank(s, n) < Power(n, |s|)
  {
    if s != [] {
      RankBelow(s[..|s| - 1], n);
      Carry(Rank(s[..|s| - 1], n), Power(n, |s| - 1), n);
    }
  }

  lemma {:induction false} RankAscends(a: seq<nat>, b: seq<nat>, n: nat)
    requires |a| == |b| && LexLess(a, b)
    requires forall i :: 0 <= i < |a| ==> a[i] < n && b[i] < n
    ensures Rank(a, n) < Rank(b, n)
  {
    var k := |a| - 1;
    var i :| 0 <= i < |a| && LessAt(a, b, i);
    if i < k {
      assert LessAt(a[..k], b[..k], i);
      RankAscends(a[..k], b[..k], n);
      Carry(Rank(a[..k], n), Rank(b[..k], n), n);
    } else {
      assert a[..k] == b[..k];
    }
  }

  // ----- the whole enumeration -----

  ghost predicate AllUpTo(visited: seq<seq<nat>>, last: seq<nat>, n: nat) {
    forall t :: IsSubset(t, n) && |t| == |last| && (t == last || LexLess(t, last)) ==> t in visited
  }

  ghost predicate Ascending(visited: seq<seq<nat>>, k: nat) {
    (forall i :: 0 <= i < |visited| ==> |visited[i]| == k) &&
    forall i, j :: 0 <= i < j < |visited| ==> LexLess(visited[i], visited[j])
  }

  lemma EnumerationStarts(k: nat, n: nat)
    requires 1 <= k <= n
    ensures AllUpTo([Range(k)], Range(k), n)
  {
    FirstIsLeast(k, n, Range(k));
    forall t | IsSubset(t, n) && |t| == k && (t == Range(k) || LexLess(t, Range(k))) ensures t in [Range(k)] {
      FirstIsLeast(k, n, t);
      LexAsymmetric(t, Range(k));
    }
  }

  lemma EnumerationGoesOn(visited: seq<seq<nat>>, a: seq<nat>, b: seq<nat>, n: nat)
    requires Follows(a, b, n) && AllUpTo(visited, a, n)
    ensures AllUpTo(visited + [b], b, n)
  {
    forall t | IsSubset(t, n) && |t| == |b| && (t == b || LexLess(t, b)) ensures t in visited + [b] {
      LexTotal(a, t);
      if t != b {
        assert !LexLess(a, t);
        assert t in visited;
      }
    }
  }

  lemma EnumerationAscends(visited: seq<seq<nat>>, b: seq<nat>)
    requires visited != [] && Ascending(visited, |b|) && LexLess(visited[|visited| - 1], b)
    ensures Ascending(visited + [b], |b|)
  {
    var v := visited + [b];
    forall i, j | 0 <= i < j < |v| ensures LexLess(v[i], v[j]) {
      if j == |visited| && i < |visited| - 1 {
        LexTransitive(v[i], visited[|visited| - 1], b);
      }
    }
  }
}
