/** The searches of the analyzer: one subset, one partition, a list of ever better partitions, and its pruning. */
module PartitionSearch {
  import opened Subsets
  import opened Partition

  const NUMBER_OF_SUBSETS_LIMIT := 100
  const ALWAYS_SEARCH_SIZE := 2

  // ----- how large the subsets are that are searched exhaustively -----

  function FallingFactorial(n: int, p: nat): int {
    if p == 0 then 1 else FallingFactorial(n, p - 1) * (n - (p - 1))
  }

  function Factorial(p: nat): nat {
    if p == 0 then 1 else Factorial(p - 1) * p
  }

  /** At each size up to p there are at most so many subsets of n elements. */
  ghost predicate Feasible(n: nat, p: nat) {
    forall q :: 1 <= q <= p ==> FallingFactorial(n, q) <= Factorial(q) * NUMBER_OF_SUBSETS_LIMIT
  }

  /** The number of k-element subsets of n elements, by Pascal's rule. */
  function Choose(n: nat, k: nat): nat {
    if k == 0 then 1 else if n == 0 then 0 else Choose(n - 1, k - 1) + Choose(n - 1, k)
  }

  lemma {:induction false} FallingFromOneLess(n: nat, q: nat)
    requires n >= 1 && q >= 1
    ensures FallingFactorial(n, q) == n * FallingFactorial(n - 1, q - 1)
  {
    if q > 1 {
      FallingFromOneLess(n, q - 1);
      Associate(n, FallingFactorial(n - 1, q - 2), n - (q - 1));
    } else {
      assert FallingFactorial(n, 1) == FallingFactorial(n, 0) * n;
    }
  }

  lemma Associate(a: int, b: int, c: int)
    ensures (a * b) * c == a * (b * c)
  {
  }

  lemma FallingPascal(n: nat, q: nat)
    requires n >= 1 && q >= 1
    ensures FallingFactorial(n, q) == FallingFactorial(n - 1, q) + q * FallingFactorial(n - 1, q - 1)
  {
    FallingFromOneLess(n, q);
    var f := FallingFactorial(n - 1, q - 1);
    assert FallingFactorial(n - 1, q) == f * (n - q);
    assert f * (n - q) + q * f == n * f;
  }

  lemma {:induction false} FallingOfNone(q: nat)
    requires q >= 1
    ensures FallingFactorial(0, q) == 0
  {
    if q > 1 {
      FallingOfNone(q - 1);
    } else {
      assert FallingFactorial(0, 1) == FallingFactorial(0, 0) * 0;
    }
  }

  lemma {:induction false} FallingCounts(n: nat, q: nat)
    ensures FallingFactorial(n, q) == Factorial(q) * Choose(n, q)
    decreases n, q
  {
    if q == 0 {
    } else if n == 0 {
      FallingOfNone(q);
    } else {
      FallingPascal(n, q);
      FallingCounts(n - 1, q);
      FallingCounts(n - 1, q - 1);
      Associate(Factorial(q - 1), q, Choose(n - 1, q - 1));
      Associate(q, Factorial(q - 1), Choose(n - 1, q - 1));
      Distribute(Factorial(q), Choose(n - 1, q - 1), Choose(n - 1, q));
    }
  }

  lemma Distribute(a: int, b: int, c: int)
    ensures a * (b + c) == a * b + a * c
  {
  }

  lemma {:induction false} FactorialIsPositive(q: nat)
    ensures Factorial(q) >= 1
  {
    if q > 0 {
      FactorialIsPositive(q - 1);
      assert Factorial(q - 1) * q >= q;
    }
  }

  lemma Cancel(f: int, a: int, b: int)
    requires f >= 1
    ensures f * a <= f * b <==> a <= b
  {
  }

  /** There are at most 100 subsets of this size. */
  predicate FewSubsets(n: nat, q: nat) {
    Choose(n, q) <= 100
  }

  /** What the test with numerator and denominator decides: there are few subsets of each size up to p. */
  lemma FeasibleMeans(n: nat, p: nat)
    ensures Feasible(n, p) <==> forall q :: 1 <= q <= p ==> FewSubsets(n, q)
  {
    hide FallingFactorial, Factorial, FewSubsets;
    if Feasible(n, p) {
      forall q | 1 <= q <= p ensures FewSubsets(n, q) {
        FewSubsetsOfSize(n, q);
      }
    } else {
      var q :| 1 <= q <= p && FallingFactorial(n, q) > Factorial(q) * NUMBER_OF_SUBSETS_LIMIT;
      FewSubsetsOfSize(n, q);
    }
  }

  lemma FewSubsetsOfSize(n: nat, q: nat)
    ensures FallingFactorial(n, q) <= Factorial(q) * NUMBER_OF_SUBSETS_LIMIT <==> FewSubsets(n, q)
  {
    hide FallingFactorial, Factorial, Choose;
    FallingCounts(n, q);
    FactorialIsPositive(q);
    Cancel(Factorial(q), Choose(n, q), 100);
  }

  method IsNumberOfSubsetsFeasible(n: nat, p: nat) returns (feasible: bool)
    requires 0 < p <= n
    ensures feasible <==> Feasible(n, p)
  {
    var numerator, denominator := 1, 1;
    for i := 0 to p
      invariant numerator == FallingFactorial(n, i) && denominator == Factorial(i)
      invariant Feasible(n, i)
    {
      numerator := numerator * (n - i);
      denominator := denominator * (i + 1);
      assert numerator == FallingFactorial(n, i + 1) && denominator == Factorial(i + 1);
      if numerator > denominator * NUMBER_OF_SUBSETS_LIMIT {
        return false;
      }
    }
    feasible := true;
  }

  method MaxFeasibleSubsetSize(n: nat) returns (size: nat)
    requires n > 0
    ensures size <= n - 1
    ensures (if n - 1 < ALWAYS_SEARCH_SIZE then n - 1 else ALWAYS_SEARCH_SIZE) <= size
    ensures size > ALWAYS_SEARCH_SIZE ==> Feasible(n, size)
    ensures size < n - 1 ==> !Feasible(n, size + 1)
  {
    var least := if n - 1 < ALWAYS_SEARCH_SIZE then n - 1 else ALWAYS_SEARCH_SIZE;
    for p := 1 to n
      invariant p <= n && (p > 1 ==> Feasible(n, p))
    {
      var more := true;
      if p <= n - 1 {
        more := IsNumberOfSubsetsFeasible(n, p + 1);
      }
      if !more {
        return if p < least then least else p;
      }
    }
    size := n - 1;
  }

  // ----- one exhaustive round -----

  function Pick(remainder: seq<nat>, indices: seq<nat>): seq<nat>
    requires forall i :: 0 <= i < |indices| ==> indices[i] < |remainder|
  {
    seq(|indices|, i requires 0 <= i < |indices| => remainder[indices[i]])
  }

  predicate Searchable(files: seq<File>, remainder: seq<nat>, chosen: seq<nat>) {
    SameEntries(files) && FilesOf(remainder, files) && FilesOf(chosen, files)
  }

  function TrialEfficiency(files: seq<File>, remainder: seq<nat>, chosen: seq<nat>, s: seq<nat>): real
    requires Searchable(files, remainder, chosen) && IsSubset(s, |remainder|)
  {
    Efficiency(files, chosen + Pick(remainder, s))
  }

  /**
   Of the visited choices none is better than the best one, and those before it are worse; it is empty
   when all have efficiency 0.
   */
  ghost predicate BestOf(files: seq<File>, remainder: seq<nat>, chosen: seq<nat>, n: nat,
                         visited: seq<seq<nat>>, best: seq<nat>, efficiency: real)
    requires Searchable(files, remainder, chosen) && n <= |remainder|
  {
    (forall s :: s in visited && IsSubset(s, n) ==> TrialEfficiency(files, remainder, chosen, s) <= efficiency) &&
    if best == [] then efficiency == 0.0
    else
      IsSubset(best, n) && efficiency == TrialEfficiency(files, remainder, chosen, best) && efficiency > 0.0 &&
      exists k :: 0 <= k < |visited| && visited[k] == best &&
        forall j :: 0 <= j < k && IsSubset(visited[j], n) ==>
          TrialEfficiency(files, remainder, chosen, visited[j]) < efficiency
  }

  lemma BestOfNone(files: seq<File>, remainder: seq<nat>, chosen: seq<nat>, n: nat)
    requires Searchable(files, remainder, chosen) && n <= |remainder|
    ensures BestOf(files, remainder, chosen, n, [], [], 0.0)
  {
  }

  lemma BestOfMore(files: seq<File>, remainder: seq<nat>, chosen: seq<nat>, n: nat,
                   visited: seq<seq<nat>>, best: seq<nat>, efficiency: real, s: seq<nat>)
    requires Searchable(files, remainder, chosen) && n <= |remainder| && IsSubset(s, n)
    requires BestOf(files, remainder, chosen, n, visited, best, efficiency)
    ensures var e := TrialEfficiency(files, remainder, chosen, s);
            if e > efficiency then BestOf(files, remainder, chosen, n, visited + [s], s, e)
            else BestOf(files, remainder, chosen, n, visited + [s], best, efficiency)
  {
    hide TrialEfficiency, Searchable;
    var v := visited + [s];
    if TrialEfficiency(files, remainder, chosen, s) > efficiency {
      assert v[|visited|] == s;
    } else if best != [] {
      var k :| 0 <= k < |visited| && visited[k] == best &&
        forall j :: 0 <= j < k && IsSubset(visited[j], n) ==>
          TrialEfficiency(files, remainder, chosen, visited[j]) < efficiency;
      assert v[k] == best;
    }
  }

  method TryChoice(files: seq<File>, remainder: seq<nat>, chosen: seq<nat>, a: array<nat>, n: nat)
    returns (efficiency: real)
    requires Searchable(files, remainder, chosen) && n <= |remainder| && IsSubset(a[..], n)
    ensures efficiency == TrialEfficiency(files, remainder, chosen, a[..])
  {
    hide Efficiency, SameEntries;
    ghost var s := a[..];
    var trial := chosen;
    for i := 0 to a.Length
      invariant trial == chosen + Pick(remainder, s[..i])
    {
      trial := trial + [remainder[a[i]]];
      assert Pick(remainder, s[..i + 1]) == Pick(remainder, s[..i]) + [remainder[s[i]]];
    }
    assert s[..a.Length] == s;
    efficiency := EfficiencyOfSubset(files, trial);
  }

  /** What the search loop keeps: the visited choices are all those up to the current one, in order. */
  ghost predicate Enumerated(visited: seq<seq<nat>>, s: seq<nat>, size: nat, n: nat) {
    |s| == size && IsSubset(s, n) && Rank(s, n) < Power(n, size) &&
    Ascending(visited + [s], size) && AllUpTo(visited + [s], s, n) &&
    forall t :: t in visited ==> IsSubset(t, n) && |t| == size
  }

  lemma EnumeratedFirst(size: nat, n: nat)
    requires 1 <= size <= n
    ensures Enumerated([], Range(size), size, n)
  {
    FirstIsLeast(size, n, Range(size));
    EnumerationStarts(size, n);
    RankBelow(Range(size), n);
    assert [] + [Range(size)] == [Range(size)];
  }

  lemma EnumeratedNext(visited: seq<seq<nat>>, s: seq<nat>, next: seq<nat>, size: nat, n: nat)
    requires Enumerated(visited, s, size, n) && Follows(s, next, n)
    ensures Enumerated(visited + [s], next, size, n) && Rank(s, n) < Rank(next, n)
  {
    EnumerationGoesOn(visited + [s], s, next, n);
    EnumerationAscends(visited + [s], next);
    RankAscends(s, next, n);
    RankBelow(next, n);
  }

  lemma EnumeratedAll(visited: seq<seq<nat>>, s: seq<nat>, size: nat, n: nat)
    requires Enumerated(visited, s, size, n) && IsLast(s, n)
    ensures Ascending(visited + [s], size)
    ensures forall t :: t in visited + [s] <==> IsSubset(t, n) && |t| == size
  {
    LastIsGreatest(s, n);
    forall t | IsSubset(t, n) && |t| == size ensures t in visited + [s] {
      LexTotal(t, s);
    }
  }

  /** The lexicographically first of the best choices, or none when all have efficiency 0. */
  ghost predicate FirstBest(files: seq<File>, remainder: seq<nat>, chosen: seq<nat>, size: nat, n: nat,
                            best: seq<nat>, efficiency: real)
    requires Searchable(files, remainder, chosen) && n <= |remainder|
  {
    (forall s :: IsSubset(s, n) && |s| == size ==> TrialEfficiency(files, remainder, chosen, s) <= efficiency) &&
    if best == [] then efficiency == 0.0
    else
      IsSubset(best, n) && |best| == size && efficiency == TrialEfficiency(files, remainder, chosen, best) &&
      efficiency > 0.0 &&
      forall s :: IsSubset(s, n) && |s| == size && LexLess(s, best) ==>
        TrialEfficiency(files, remainder, chosen, s) < efficiency
  }

  lemma Wider(n: nat, m: nat)
    requires n <= m
    ensures forall s :: IsSubset(s, n) ==> IsSubset(s, m)
  {
  }

  lemma AscendingLengths(visited: seq<seq<nat>>, size: nat)
    requires Ascending(visited, size)
    ensures forall i :: 0 <= i < |visited| ==> |visited[i]| == size
  {
  }

  lemma AscendingOrder(visited: seq<seq<nat>>, size: nat, i: nat, k: nat)
    requires Ascending(visited, size) && i < |visited| && k < |visited|
    ensures |visited[i]| == |visited[k]| && (LexLess(visited[i], visited[k]) ==> i < k)
  {
    LexAsymmetric(visited[i], visited[k]);
  }

  lemma BestIsFirst(files: seq<File>, remainder: seq<nat>, chosen: seq<nat>, size: nat, n: nat,
                    visited: seq<seq<nat>>, best: seq<nat>, efficiency: real)
    requires Searchable(files, remainder, chosen) && n <= |remainder|
    requires Ascending(visited, size) && forall s :: s in visited <==> IsSubset(s, n) && |s| == size
    requires BestOf(files, remainder, chosen, n, visited, best, efficiency)
    ensures FirstBest(files, remainder, chosen, size, n, best, efficiency)
  {
    hide TrialEfficiency, Searchable, Ascending, LexLess, IsSubset;
    AscendingLengths(visited, size);
    Wider(n, |remainder|);
    if best != [] {
      var k :| 0 <= k < |visited| && visited[k] == best &&
        forall j :: 0 <= j < k && IsSubset(visited[j], n) ==>
          TrialEfficiency(files, remainder, chosen, visited[j]) < efficiency;
      assert visited[k] in visited;
      forall s | IsSubset(s, n) && |s| == size && LexLess(s, best)
        ensures TrialEfficiency(files, remainder, chosen, s) < efficiency
      {
        var i :| 0 <= i < |visited| && visited[i] == s;
        AscendingOrder(visited, size, i, k);
        assert visited[i] in visited;
      }
    }
  }

  /**
   The best way to add `size` of the first n remaining files to the chosen ones: every such choice is
   tried, each once, in order.
   */
  method BestCandidates(files: seq<File>, remainder: seq<nat>, chosen: seq<nat>, size: nat, n: nat)
    returns (best: seq<nat>, efficiency: real, ghost visited: seq<seq<nat>>)
    requires Searchable(files, remainder, chosen)
    requires 1 <= size <= n <= |remainder|
    ensures Ascending(visited, size) && forall s :: s in visited <==> IsSubset(s, n) && |s| == size
    ensures FirstBest(files, remainder, chosen, size, n, best, efficiency)
  {
    hide TrialEfficiency, BestOf, FirstBest, Searchable, Ascending, AllUpTo, Follows, Rank, Power;
    EnumeratedFirst(size, n);
    var a := MakeFirstSubset(size, n);
    BestOfNone(files, remainder, chosen, n);
    best, efficiency, visited := [], 0.0, [];
    while true
      invariant Enumerated(visited, a[..], size, n)
      invariant BestOf(files, remainder, chosen, n, visited, best, efficiency)
      decreases Power(n, size) - Rank(a[..], n)
    {
      ghost var s := a[..];
      ghost var before := visited;
      var trialEfficiency := TryChoice(files, remainder, chosen, a, n);
      BestOfMore(files, remainder, chosen, n, visited, best, efficiency, s);
      visited := visited + [s];
      if trialEfficiency > efficiency {
        efficiency := trialEfficiency;
        best := a[..];
      }
      if a[0] == n - a.Length {
        EnumeratedAll(before, s, size, n);
        BestIsFirst(files, remainder, chosen, size, n, visited, best, efficiency);
        break;
      }
      NextSubset(a, n);
      EnumeratedNext(before, s, a[..], size, n);
    }
  }

  /** Keep of the candidates those at the given positions; done in place, front to back. */
  method Narrow(candidates: seq<nat>, best: seq<nat>) returns (r: seq<nat>)
    requires IsSubset(best, |candidates|)
    ensures r == Pick(candidates, best)
  {
    r := candidates;
    for i := 0 to |best|
      invariant |r| == |candidates| && i <= |r|
      invariant r[..i] == Pick(candidates, best[..i])
      invariant forall j :: i <= j < |r| ==> r[j] == candidates[j]
    {
      Room(best, |candidates|, i);
      assert Pick(candidates, best[..i + 1]) == Pick(candidates, best[..i]) + [candidates[best[i]]];
      r := r[i := r[best[i]]];
    }
    Room(best, |candidates|, |best| - 1);
    assert best[..|best|] == best;
    r := r[..|best|];
  }

  /** No choice of that many of the remaining files beats the required efficiency. */
  ghost predicate NoneBeats(files: seq<File>, required: real, remainder: seq<nat>, chosen: seq<nat>, size: nat)
    requires Searchable(files, remainder, chosen)
  {
    forall s :: IsSubset(s, |remainder|) && |s| == size ==> TrialEfficiency(files, remainder, chosen, s) <= required
  }

  /** A choice that beats the required efficiency, and than which none of its size is better. */
  ghost predicate BeatsAll(files: seq<File>, required: real, remainder: seq<nat>, chosen: seq<nat>, best: seq<nat>)
    requires Searchable(files, remainder, chosen)
  {
    IsSubset(best, |remainder|) && TrialEfficiency(files, remainder, chosen, best) > required &&
    forall s :: IsSubset(s, |remainder|) && |s| == |best| ==>
      TrialEfficiency(files, remainder, chosen, s) <= TrialEfficiency(files, remainder, chosen, best)
  }

  /**
   The position is in a best choice of the largest size, up to `most`, in which a choice beats the
   required efficiency; it is the first one when there is no such size.
   */
  ghost predicate Settled(files: seq<File>, required: real, remainder: seq<nat>, chosen: seq<nat>,
                          most: nat, index: nat)
    requires Searchable(files, remainder, chosen)
  {
    if forall size :: 1 <= size <= most ==> NoneBeats(files, required, remainder, chosen, size) then index == 0
    else
      exists best :: BeatsAll(files, required, remainder, chosen, best) && index in best && 1 <= |best| <= most &&
        forall size :: |best| < size <= most ==> NoneBeats(files, required, remainder, chosen, size)
  }

  lemma BestOfAll(files: seq<File>, required: real, remainder: seq<nat>, chosen: seq<nat>, size: nat,
                  best: seq<nat>, efficiency: real)
    requires Searchable(files, remainder, chosen) && required >= 0.0
    requires FirstBest(files, remainder, chosen, size, |remainder|, best, efficiency)
    ensures if efficiency > required then BeatsAll(files, required, remainder, chosen, best) && |best| == size
            else NoneBeats(files, required, remainder, chosen, size)
  {
    hide TrialEfficiency, Searchable;
  }

  lemma BeatenIsNotNone(files: seq<File>, required: real, remainder: seq<nat>, chosen: seq<nat>, best: seq<nat>)
    requires Searchable(files, remainder, chosen) && BeatsAll(files, required, remainder, chosen, best)
    ensures !NoneBeats(files, required, remainder, chosen, |best|)
  {
    hide TrialEfficiency;
  }

  predicate Candidates(candidates: seq<nat>, remainder: seq<nat>) {
    0 < |candidates| <= |remainder| && forall i :: 0 <= i < |candidates| ==> candidates[i] < |remainder|
  }

  function Narrowed(candidates: seq<nat>, best: seq<nat>, beats: bool): seq<nat>
    requires beats ==> IsSubset(best, |candidates|)
  {
    if beats then Pick(candidates, best) else candidates
  }

  /** The rounds from `size` down, which measure the first files of the remainder, settle on the index. */
  ghost predicate Rounds(files: seq<File>, required: real, remainder: seq<nat>, chosen: seq<nat>,
                         size: nat, candidates: seq<nat>, index: nat)
    requires Searchable(files, remainder, chosen) && required >= 0.0
    requires Candidates(candidates, remainder) && size <= |candidates|
    decreases size
  {
    if size == 0 then index == candidates[0]
    else
      exists best, efficiency ::
        FirstBest(files, remainder, chosen, size, |candidates|, best, efficiency) &&
        Rounds(files, required, remainder, chosen, size - 1, Narrowed(candidates, best, efficiency > required), index)
  }

  lemma RoundBefore(files: seq<File>, required: real, remainder: seq<nat>, chosen: seq<nat>, size: nat,
                    candidates: seq<nat>, best: seq<nat>, efficiency: real)
    requires Searchable(files, remainder, chosen) && required >= 0.0
    requires Candidates(candidates, remainder) && 1 <= size <= |candidates|
    requires FirstBest(files, remainder, chosen, size, |candidates|, best, efficiency)
    ensures efficiency > required ==> IsSubset(best, |candidates|) && |best| == size
    ensures var next := Narrowed(candidates, best, efficiency > required);
            Candidates(next, remainder) && size - 1 <= |next| &&
            forall index: nat :: Rounds(files, required, remainder, chosen, size - 1, next, index) ==>
              Rounds(files, required, remainder, chosen, size, candidates, index)
  {
    hide TrialEfficiency, Searchable, IsSubset, Narrowed, FirstBest;
    BestIsCandidates(files, required, remainder, chosen, size, candidates, best, efficiency);
    var next := Narrowed(candidates, best, efficiency > required);
    forall index: nat | Rounds(files, required, remainder, chosen, size - 1, next, index)
      ensures Rounds(files, required, remainder, chosen, size, candidates, index)
    {
      assert FirstBest(files, remainder, chosen, size, |candidates|, best, efficiency);
    }
  }

  lemma NarrowedAreCandidates(remainder: seq<nat>, candidates: seq<nat>, best: seq<nat>, beats: bool)
    requires Candidates(candidates, remainder) && (beats ==> IsSubset(best, |candidates|))
    ensures var next := Narrowed(candidates, best, beats);
            Candidates(next, remainder) && |next| == if beats then |best| else |candidates|
  {
    if beats {
      Room(best, |candidates|, |best| - 1);
    }
  }

  lemma BestIsChoice(files: seq<File>, remainder: seq<nat>, chosen: seq<nat>, n: nat, size: nat,
                     best: seq<nat>, efficiency: real)
    requires Searchable(files, remainder, chosen) && 1 <= n <= |remainder|
    requires FirstBest(files, remainder, chosen, size, n, best, efficiency)
    ensures efficiency > 0.0 ==> IsSubset(best, n) && |best| == size
  {
  }

  lemma FirstRound(files: seq<File>, required: real, remainder: seq<nat>, chosen: seq<nat>, size: nat,
                   candidates: seq<nat>, index: nat) returns (best: seq<nat>, efficiency: real)
    requires Searchable(files, remainder, chosen) && required >= 0.0
    requires Candidates(candidates, remainder) && 1 <= size <= |candidates|
    requires Rounds(files, required, remainder, chosen, size, candidates, index)
    ensures FirstBest(files, remainder, chosen, size, |candidates|, best, efficiency)
    ensures efficiency > required ==> IsSubset(best, |candidates|)
    ensures var next := Narrowed(candidates, best, efficiency > required);
            Candidates(next, remainder) && size - 1 <= |next| &&
            Rounds(files, required, remainder, chosen, size - 1, next, index)
  {
    hide TrialEfficiency, Searchable;
    best, efficiency :| FirstBest(files, remainder, chosen, size, |candidates|, best, efficiency) &&
      Rounds(files, required, remainder, chosen, size - 1, Narrowed(candidates, best, efficiency > required), index);
    hide FirstBest, IsSubset, Narrowed, Candidates, Rounds;
    BestIsCandidates(files, required, remainder, chosen, size, candidates, best, efficiency);
  }

  lemma BestIsCandidates(files: seq<File>, required: real, remainder: seq<nat>, chosen: seq<nat>, size: nat,
                         candidates: seq<nat>, best: seq<nat>, efficiency: real)
    requires Searchable(files, remainder, chosen) && required >= 0.0
    requires Candidates(candidates, remainder) && 1 <= size <= |candidates|
    requires FirstBest(files, remainder, chosen, size, |candidates|, best, efficiency)
    ensures efficiency > required ==> IsSubset(best, |candidates|) && |best| == size
    ensures var next := Narrowed(candidates, best, efficiency > required);
            Candidates(next, remainder) && size - 1 <= |next|
  {
    hide TrialEfficiency, Searchable, IsSubset, Narrowed, FirstBest;
    BestIsChoice(files, remainder, chosen, |candidates|, size, best, efficiency);
    NarrowedAreCandidates(remainder, candidates, best, efficiency > required);
  }

  /** The shrinking exhaustive rounds. After the first narrowing they may measure files that are no candidates. */
  method ChooseCandidate(files: seq<File>, required: real, remainder: seq<nat>, chosen: seq<nat>)
    returns (index: nat, ghost most: nat)
    requires Searchable(files, remainder, chosen) && remainder != [] && required >= 0.0
    ensures index < |remainder| && Settled(files, required, remainder, chosen, most, index)
    ensures most <= |remainder| - 1 && Rounds(files, required, remainder, chosen, most, Range(|remainder|), index)
    ensures most == 0 ==> |remainder| == 1
    ensures most < |remainder| - 1 ==> !Feasible(|remainder|, most + 1)
  {
    hide SameEntries, FilesOf, Ascending, TrialEfficiency, FirstBest, BeatsAll, NoneBeats, Rounds, Feasible;
    var candidates: seq<nat> := Range(|remainder|);
    var size := MaxFeasibleSubsetSize(|candidates|);
    most := size;
    ghost var first: seq<nat> := [];
    while size >= 1
      invariant 0 <= size <= most && size <= |candidates| && Candidates(candidates, remainder)
      invariant forall x: nat :: Rounds(files, required, remainder, chosen, size, candidates, x) ==>
                  Rounds(files, required, remainder, chosen, most, Range(|remainder|), x)
      invariant if first == [] then
                  candidates == Range(|remainder|) &&
                  forall k :: size < k <= most ==> NoneBeats(files, required, remainder, chosen, k)
                else
                  BeatsAll(files, required, remainder, chosen, first) && 1 <= |first| <= most &&
                  (forall k :: |first| < k <= most ==> NoneBeats(files, required, remainder, chosen, k)) &&
                  forall i :: 0 <= i < |candidates| ==> candidates[i] in first
    {
      var best: seq<nat>, efficiency: real, visited := BestCandidates(files, remainder, chosen, size, |candidates|);
      RoundBefore(files, required, remainder, chosen, size, candidates, best, efficiency);
      if first == [] {
        BestOfAll(files, required, remainder, chosen, size, best, efficiency);
      }
      if efficiency > required {
        if first == [] {
          first := best;
        }
        candidates := Narrow(candidates, best);
      }
      size := size - 1;
    }
    index := candidates[0];
    LastRound(files, required, remainder, chosen, candidates);
    if first != [] {
      BeatenIsNotNone(files, required, remainder, chosen, first);
    }
  }

  lemma LastRound(files: seq<File>, required: real, remainder: seq<nat>, chosen: seq<nat>, candidates: seq<nat>)
    requires Searchable(files, remainder, chosen) && required >= 0.0 && Candidates(candidates, remainder)
    ensures Rounds(files, required, remainder, chosen, 0, candidates, candidates[0])
  {
  }

  // ----- which rounds measure the right files -----

  ghost predicate NoRepeats(s: seq<nat>) {
    forall i, j :: 0 <= i < j < |s| ==> s[i] != s[j]
  }

  /** The files a round tries, the first ones of the remainder, are those of its candidates. */
  ghost predicate MeasuresCandidates(remainder: seq<nat>, candidates: seq<nat>)
    requires Candidates(candidates, remainder)
  {
    forall s :: IsSubset(s, |candidates|) ==> Pick(remainder, s) == Pick(Pick(remainder, candidates), s)
  }

  /** A round measures its candidates if and only if they are the first files of the remainder. */
  lemma MeasuresCandidatesIff(remainder: seq<nat>, candidates: seq<nat>)
    requires NoRepeats(remainder) && Candidates(candidates, remainder)
    ensures MeasuresCandidates(remainder, candidates) <==> candidates == Range(|candidates|)
  {
    if MeasuresCandidates(remainder, candidates) {
      forall i | 0 <= i < |candidates| ensures candidates[i] == i {
        assert IsSubset([i], |candidates|);
        assert Pick(remainder, [i])[0] == Pick(Pick(remainder, candidates), [i])[0];
      }
    }
  }

  /** So after a first narrowing the later rounds measure their candidates exactly when the best choice came first. */
  lemma NarrowedRoundsAreRightIff(remainder: seq<nat>, best: seq<nat>)
    requires NoRepeats(remainder) && IsSubset(best, |remainder|)
    ensures var next := Narrowed(Range(|remainder|), best, true);
            Candidates(next, remainder) && (MeasuresCandidates(remainder, next) <==> best == Range(|best|))
  {
    var next := Narrowed(Range(|remainder|), best, true);
    assert next == best;
    Room(best, |remainder|, |best| - 1);
    MeasuresCandidatesIff(remainder, next);
  }

  /** Fewer files work at least as well together. */
  lemma FewerIsBetter(files: seq<File>, more: seq<nat>, fewer: seq<nat>)
    requires SameEntries(files) && FilesOf(more, files) && FilesOf(fewer, files) && |fewer| <= |more|
    requires forall i :: 0 <= i < |fewer| ==> fewer[i] in more
    requires Efficiency(files, more) > 0.0
    ensures Efficiency(files, more) <= Efficiency(files, fewer)
  {
    hide Efficiency, ServedAt;
    var x := Efficiency(files, more);
    EfficiencyIsValue(files, more);
    if |fewer| <= 1 {
      AloneIsOne(files, fewer);
    } else {
      EfficiencyMeans(files, more, x);
      EfficiencyMeans(files, fewer, x);
      forall e | 0 <= e < |files[0]| ensures ServedAt(files, fewer, e, x) {
        FewerServed(files, more, fewer, e, x);
      }
    }
  }

  lemma AloneIsOne(files: seq<File>, subset: seq<nat>)
    requires SameEntries(files) && FilesOf(subset, files) && |subset| <= 1
    ensures Efficiency(files, subset) == 1.0
  {
  }

  lemma FewerServed(files: seq<File>, more: seq<nat>, fewer: seq<nat>, e: nat, x: real)
    requires SameEntries(files) && FilesOf(more, files) && FilesOf(fewer, files) && more != [] && fewer != []
    requires forall i :: 0 <= i < |fewer| ==> fewer[i] in more
    requires e < |files[0]| && ServedAt(files, more, e, x)
    ensures ServedAt(files, fewer, e, x)
  {
    hide SameRun;
    var f :| 0 <= f < |files[0]| && SameRun(files[0], e, f) &&
      forall i :: 0 <= i < |more| ==> x <= files[more[i]][f].efficiency;
    forall i | 0 <= i < |fewer| ensures x <= files[fewer[i]][f].efficiency {
      assert fewer[i] in more;
    }
  }

  lemma OneOfChoice(files: seq<File>, remainder: seq<nat>, chosen: seq<nat>, best: seq<nat>, index: nat)
    requires Searchable(files, remainder, chosen) && IsSubset(best, |remainder|) && index in best
    requires TrialEfficiency(files, remainder, chosen, best) > 0.0
    ensures TrialEfficiency(files, remainder, chosen, best) <= Efficiency(files, chosen + [remainder[index]])
  {
    hide Efficiency;
    var more, fewer := chosen + Pick(remainder, best), chosen + [remainder[index]];
    var k :| 0 <= k < |best| && best[k] == index;
    assert more[|chosen| + k] == remainder[index];
    forall i | 0 <= i < |fewer| ensures fewer[i] in more {
      if i < |chosen| {
        assert more[i] == fewer[i];
      }
    }
    FewerIsBetter(files, more, fewer);
  }

  /** When the settled file does not beat the required efficiency, no remaining file does. */
  lemma NoneWillDo(files: seq<File>, required: real, remainder: seq<nat>, chosen: seq<nat>,
                   most: nat, index: nat, p: nat)
    requires Searchable(files, remainder, chosen) && required >= 0.0
    requires index < |remainder| && Settled(files, required, remainder, chosen, most, index)
    requires most == 0 ==> |remainder| == 1
    requires Efficiency(files, chosen + [remainder[index]]) <= required
    requires p < |remainder|
    ensures Efficiency(files, chosen + [remainder[p]]) <= required
  {
    hide Efficiency, SameEntries;
    if forall size :: 1 <= size <= most ==> NoneBeats(files, required, remainder, chosen, size) {
      if most > 0 {
        assert NoneBeats(files, required, remainder, chosen, 1);
        assert IsSubset([p], |remainder|);
        assert TrialEfficiency(files, remainder, chosen, [p]) <= required;
        assert Pick(remainder, [p]) == [remainder[p]];
      }
    } else {
      var best :| BeatsAll(files, required, remainder, chosen, best) && index in best && 1 <= |best| <= most &&
        forall size :: |best| < size <= most ==> NoneBeats(files, required, remainder, chosen, size);
      OneOfChoice(files, remainder, chosen, best, index);
    }
  }

  lemma NoFileWillDo(files: seq<File>, required: real, remainder: seq<nat>, chosen: seq<nat>, most: nat, index: nat)
    requires Searchable(files, remainder, chosen) && required >= 0.0
    requires index < |remainder| && Settled(files, required, remainder, chosen, most, index)
    requires most == 0 ==> |remainder| == 1
    requires Efficiency(files, chosen + [remainder[index]]) <= required
    ensures forall p :: 0 <= p < |remainder| ==> Efficiency(files, chosen + [remainder[p]]) <= required
  {
    hide Efficiency, SameEntries, Settled;
    forall p | 0 <= p < |remainder| ensures Efficiency(files, chosen + [remainder[p]]) <= required {
      NoneWillDo(files, required, remainder, chosen, most, index, p);
    }
  }

  lemma EraseAt(s: seq<nat>, i: nat)
    requires i < |s|
    ensures multiset(s) == multiset(s[..i] + s[i + 1..]) + multiset{s[i]}
  {
    assert s == s[..i] + [s[i]] + s[i + 1..];
  }

  /**
   find_subset_with_efficiency_higher_than: moves files from the remainder to a new subset that beats
   the required efficiency and would no longer do so with any file left; at least one file moves.
   */
  method FindSubset(files: seq<File>, required: real, remainder: seq<nat>) returns (rest: seq<nat>, subset: seq<nat>)
    requires SameEntries(files) && FilesOf(remainder, files)
    requires 0.0 <= required < 1.0
    ensures FilesOf(rest, files) && FilesOf(subset, files)
    ensures multiset(remainder) == multiset(rest) + multiset(subset)
    ensures Efficiency(files, subset) > required
    ensures remainder != [] ==> subset != [] && |rest| < |remainder|
    ensures forall p :: 0 <= p < |rest| ==> Efficiency(files, subset + [rest[p]]) <= required
  {
    hide Efficiency, SameEntries, Settled, Rounds, Feasible, Range;
    rest, subset := remainder, [];
    AloneIsOne(files, subset);
    while rest != []
      invariant FilesOf(rest, files) && FilesOf(subset, files)
      invariant multiset(remainder) == multiset(rest) + multiset(subset)
      invariant Efficiency(files, subset) > required
      invariant |rest| + |subset| == |remainder|
      decreases |rest|
    {
      var index, most := ChooseCandidate(files, required, rest, subset);
      var trial := subset + [rest[index]];
      var efficiency := EfficiencyOfSubset(files, trial);
      if subset == [] {
        AloneIsOne(files, trial);
      }
      if efficiency <= required {
        NoFileWillDo(files, required, rest, subset, most, index);
        break;
      }
      EraseAt(rest, index);
      subset := trial;
      rest := rest[..index] + rest[index + 1..];
    }
  }

  // ----- one partition -----

  function Flatten(parts: seq<seq<nat>>): seq<nat> {
    if parts == [] then [] else Flatten(parts[..|parts| - 1]) + parts[|parts| - 1]
  }

  /** Every file is in exactly one subset, once, and no subset is empty. */
  ghost predicate IsPartition(parts: seq<seq<nat>>, n: nat) {
    (forall p :: 0 <= p < |parts| ==> parts[p] != []) && multiset(Flatten(parts)) == multiset(Range(n))
  }

  ghost predicate AllBeat(files: seq<File>, parts: seq<seq<nat>>, required: real)
    requires SameEntries(files)
  {
    forall p :: 0 <= p < |parts| ==> FilesOf(parts[p], files) && Efficiency(files, parts[p]) > required
  }

  /** No subset would still beat the required efficiency with one of these files added. */
  ghost predicate Closed(files: seq<File>, parts: seq<seq<nat>>, required: real, others: seq<nat>)
    requires SameEntries(files) && FilesOf(others, files)
    requires forall p :: 0 <= p < |parts| ==> FilesOf(parts[p], files)
  {
    forall p, i :: 0 <= p < |parts| && 0 <= i < |others| ==>
      assert FilesOf(parts[p], files);
      Efficiency(files, parts[p] + [others[i]]) <= required
  }

  /** No file of a later subset could have gone to an earlier one. */
  ghost predicate Greedy(files: seq<File>, parts: seq<seq<nat>>, required: real)
    requires SameEntries(files) && forall p :: 0 <= p < |parts| ==> FilesOf(parts[p], files)
  {
    forall q :: 0 <= q < |parts| ==> Closed(files, parts[..q], required, parts[q])
  }

  lemma PartKeepsGreedy(files: seq<File>, parts: seq<seq<nat>>, required: real, remainder: seq<nat>,
                        rest: seq<nat>, subset: seq<nat>)
    requires SameEntries(files) && FilesOf(remainder, files) && FilesOf(rest, files) && FilesOf(subset, files)
    requires forall p :: 0 <= p < |parts| ==> FilesOf(parts[p], files)
    requires Greedy(files, parts, required) && Closed(files, parts, required, remainder)
    requires multiset(remainder) == multiset(rest) + multiset(subset)
    requires forall p :: 0 <= p < |rest| ==> Efficiency(files, subset + [rest[p]]) <= required
    ensures Greedy(files, parts + [subset], required) && Closed(files, parts + [subset], required, rest)
  {
    hide Efficiency, SameEntries, FilesOf;
    var more := parts + [subset];
    forall i | 0 <= i < |subset| ensures subset[i] in remainder {
      assert subset[i] in multiset(remainder);
    }
    forall i | 0 <= i < |rest| ensures rest[i] in remainder {
      assert rest[i] in multiset(remainder);
    }
    forall q | 0 <= q < |more| ensures Closed(files, more[..q], required, more[q]) {
      if q < |parts| {
        assert more[..q] == parts[..q];
      } else {
        assert more[..q] == parts;
      }
    }
  }

  /** Two subsets of a greedy partition put together do not beat the required efficiency. */
  lemma NoTwoCanMerge(files: seq<File>, parts: seq<seq<nat>>, required: real, p: nat, q: nat)
    requires SameEntries(files) && AllBeat(files, parts, required) && IsPartition(parts, |files|)
    requires Greedy(files, parts, required) && required >= 0.0 && p < q < |parts|
    ensures Efficiency(files, parts[p] + parts[q]) <= required
  {
    hide Efficiency, SameEntries;
    var both, x := parts[p] + parts[q], parts[q][0];
    var one := parts[p] + [x];
    assert Closed(files, parts[..q], required, parts[q]) && parts[..q][p] == parts[p];
    assert Efficiency(files, parts[p] + [parts[q][0]]) <= required;
    if Efficiency(files, both) > 0.0 {
      assert both[|parts[p]|] == x;
      forall i | 0 <= i < |one| ensures one[i] in both {
        assert one[i] == both[i];
      }
      FewerIsBetter(files, both, one);
    }
  }

  lemma MoveToPart(parts: seq<seq<nat>>, subset: seq<nat>, remainder: seq<nat>, rest: seq<nat>)
    requires multiset(remainder) == multiset(rest) + multiset(subset)
    ensures multiset(Flatten(parts + [subset])) + multiset(rest) == multiset(Flatten(parts)) + multiset(remainder)
  {
    assert (parts + [subset])[..|parts|] == parts;
  }

  /** find_partition_with_efficiency_higher_than. */
  method FindPartition(files: seq<File>, required: real) returns (parts: seq<seq<nat>>)
    requires SameEntries(files) && 0.0 <= required < 1.0
    ensures IsPartition(parts, |files|) && AllBeat(files, parts, required) && Greedy(files, parts, required)
  {
    hide Efficiency, Flatten, SameEntries;
    parts := [];
    var remainder: seq<nat> := Range(|files|);
    FlattenNothing();
    while remainder != []
      invariant FilesOf(remainder, files) && AllBeat(files, parts, required)
      invariant Greedy(files, parts, required) && Closed(files, parts, required, remainder)
      invariant forall p :: 0 <= p < |parts| ==> parts[p] != []
      invariant multiset(Flatten(parts)) + multiset(remainder) == multiset(Range(|files|))
      decreases |remainder|
    {
      var rest, subset := FindSubset(files, required, remainder);
      MoveToPart(parts, subset, remainder, rest);
      PartKeepsGreedy(files, parts, required, remainder, rest, subset);
      parts := parts + [subset];
      remainder := rest;
    }
  }

  lemma FlattenNothing()
    ensures Flatten([]) == []
  {
  }

  predicate HasAt(parts: seq<seq<nat>>, p: nat, i: nat, file: nat) {
    p < |parts| && i < |parts[p]| && parts[p][i] == file
  }

  lemma RangeHasEachOnce(n: nat, file: nat)
    ensures multiset(Range(n))[file] == if file < n then 1 else 0
    decreases n
  {
    if n > 0 {
      RangeHasEachOnce(n - 1, file);
      assert Range(n) == Range(n - 1) + [n - 1];
    }
  }

  lemma {:induction false} FlattenHas(parts: seq<seq<nat>>, p: nat, i: nat)
    requires p < |parts| && i < |parts[p]|
    ensures parts[p][i] in multiset(Flatten(parts))
  {
    if p < |parts| - 1 {
      FlattenHas(parts[..|parts| - 1], p, i);
    }
  }

  lemma {:induction false} FlattenHasOnly(parts: seq<seq<nat>>, file: nat)
    requires file in multiset(Flatten(parts))
    ensures exists p: nat, i: nat :: HasAt(parts, p, i, file)
  {
    var last := |parts| - 1;
    if file in parts[last] {
      var i :| 0 <= i < |parts[last]| && parts[last][i] == file;
      assert HasAt(parts, last, i, file);
    } else {
      FlattenHasOnly(parts[..last], file);
      var p: nat, i: nat :| HasAt(parts[..last], p, i, file);
      assert HasAt(parts, p, i, file);
    }
  }

  lemma TwiceInOne(s: seq<nat>, i: nat, j: nat)
    requires i < j < |s| && s[i] == s[j]
    ensures multiset(s)[s[i]] >= 2
  {
    assert s == s[..j] + s[j..];
    assert s[..j][i] in multiset(s[..j]) && s[j..][0] in multiset(s[j..]);
  }

  lemma {:induction false} TwiceInAll(parts: seq<seq<nat>>, p: nat, i: nat, q: nat, j: nat, file: nat)
    requires HasAt(parts, p, i, file) && HasAt(parts, q, j, file)
    requires p < q || (p == q && i < j)
    ensures multiset(Flatten(parts))[file] >= 2
  {
    var last := |parts| - 1;
    if q < last {
      TwiceInAll(parts[..last], p, i, q, j, file);
    } else if p < last {
      FlattenHas(parts[..last], p, i);
      assert file in multiset(parts[last]);
    } else {
      TwiceInOne(parts[last], i, j);
    }
  }

  /** What a partition is: each file has exactly one place in exactly one subset, and nothing else has any. */
  lemma PartitionPlacesEachOnce(parts: seq<seq<nat>>, n: nat, file: nat)
    requires IsPartition(parts, n)
    ensures (exists p: nat, i: nat :: HasAt(parts, p, i, file)) <==> file < n
    ensures forall p: nat, i: nat, q: nat, j: nat ::
              HasAt(parts, p, i, file) && HasAt(parts, q, j, file) ==> p == q && i == j
  {
    RangeHasEachOnce(n, file);
    if file < n {
      FlattenHasOnly(parts, file);
    }
    forall p: nat, i: nat, q: nat, j: nat | HasAt(parts, p, i, file) && HasAt(parts, q, j, file)
      ensures file < n && p == q && i == j
    {
      FlattenHas(parts, p, i);
      if p < q || (p == q && i < j) {
        TwiceInAll(parts, p, i, q, j, file);
      } else if q < p || (p == q && j < i) {
        TwiceInAll(parts, q, j, p, i, file);
      }
    }
    if exists p: nat, i: nat :: HasAt(parts, p, i, file) {
      var p: nat, i: nat :| HasAt(parts, p, i, file);
      FlattenHas(parts, p, i);
    }
  }

  // ----- the list of partitions -----

  function PartitionEfficiency(files: seq<File>, parts: seq<seq<nat>>): real
    requires SameEntries(files) && forall p :: 0 <= p < |parts| ==> FilesOf(parts[p], files)
  {
    if parts == [] then 1.0
    else Min(PartitionEfficiency(files, parts[..|parts| - 1]), Efficiency(files, parts[|parts| - 1]))
  }

  /** The efficiency of a partition is the least of its subsets' efficiencies, and 1 for no subset. */
  lemma {:induction false} PartitionEfficiencyMeans(files: seq<File>, parts: seq<seq<nat>>, x: real)
    requires SameEntries(files) && forall p :: 0 <= p < |parts| ==> FilesOf(parts[p], files)
    ensures x <= PartitionEfficiency(files, parts) <==>
            x <= 1.0 && forall p :: 0 <= p < |parts| ==> x <= Efficiency(files, parts[p])
  {
    hide Efficiency, SameEntries;
    if parts != [] {
      var n := |parts| - 1;
      PartitionEfficiencyMeans(files, parts[..n], x);
      assert forall p :: 0 <= p < n ==> parts[..n][p] == parts[p];
    }
  }

  /** Some subset of a is worse than every subset of b. */
  ghost predicate LessEfficient(files: seq<File>, a: seq<seq<nat>>, b: seq<seq<nat>>)
    requires SameEntries(files)
    requires forall p :: 0 <= p < |a| ==> FilesOf(a[p], files)
    requires forall q :: 0 <= q < |b| ==> FilesOf(b[q], files)
  {
    exists p :: 0 <= p < |a| && forall q :: 0 <= q < |b| ==> Efficiency(files, a[p]) < Efficiency(files, b[q])
  }

  lemma LessEfficientSubset(files: seq<File>, a: seq<seq<nat>>, b: seq<seq<nat>>)
    requires SameEntries(files)
    requires forall p :: 0 <= p < |a| ==> FilesOf(a[p], files)
    requires forall q :: 0 <= q < |b| ==> FilesOf(b[q], files)
    requires PartitionEfficiency(files, a) < PartitionEfficiency(files, b)
    ensures LessEfficient(files, a, b)
  {
    hide Efficiency, SameEntries, PartitionEfficiency;
    var x := PartitionEfficiency(files, b);
    PartitionEfficiencyMeans(files, a, x);
    PartitionEfficiencyMeans(files, b, x);
    var p :| 0 <= p < |a| && !(x <= Efficiency(files, a[p]));
  }

  lemma EfficiencyOne(files: seq<File>, parts: seq<seq<nat>>)
    requires SameEntries(files) && forall p :: 0 <= p < |parts| ==> FilesOf(parts[p], files)
    requires PartitionEfficiency(files, parts) == 1.0
    ensures forall p :: 0 <= p < |parts| ==> Efficiency(files, parts[p]) == 1.0
  {
    hide Efficiency, SameEntries, PartitionEfficiency, Values;
    PartitionEfficiencyMeans(files, parts, 1.0);
    forall p | 0 <= p < |parts| ensures Efficiency(files, parts[p]) == 1.0 {
      EfficiencyIsValue(files, parts[p]);
    }
  }

  lemma {:induction false} PartitionEfficiencyBeats(files: seq<File>, parts: seq<seq<nat>>, required: real)
    requires SameEntries(files) && AllBeat(files, parts, required) && required < 1.0
    ensures required < PartitionEfficiency(files, parts) <= 1.0
    ensures PartitionEfficiency(files, parts) in Values(files)
  {
    hide Efficiency, Values;
    if parts == [] {
      OneIsValue(files);
    } else {
      PartitionEfficiencyBeats(files, parts[..|parts| - 1], required);
      EfficiencyIsValue(files, parts[|parts| - 1]);
    }
  }

  lemma OneIsValue(files: seq<File>)
    ensures 1.0 in Values(files)
  {
  }

  method EfficiencyOfPartition(files: seq<File>, parts: seq<seq<nat>>) returns (efficiency: real)
    requires SameEntries(files) && forall p :: 0 <= p < |parts| ==> FilesOf(parts[p], files)
    ensures efficiency == PartitionEfficiency(files, parts)
  {
    efficiency := 1.0;
    for p := 0 to |parts|
      invariant efficiency == PartitionEfficiency(files, parts[..p])
    {
      var e := EfficiencyOfSubset(files, parts[p]);
      assert parts[..p + 1][..p] == parts[..p];
      efficiency := Min(efficiency, e);
    }
    assert parts[..|parts|] == parts;
  }

  /** The values that still beat the required efficiency: fewer after every round. */
  ghost function Above(files: seq<File>, required: real): set<real> {
    set v | v in Values(files) && v > required
  }

  lemma FewerAbove(files: seq<File>, required: real, actual: real)
    requires actual in Values(files) && actual > required
    ensures |Above(files, actual)| < |Above(files, required)|
  {
    hide Values;
    assert actual in Above(files, required) && actual !in Above(files, actual);
    assert Above(files, actual) <= Above(files, required) - {actual};
    SubsetSize(Above(files, actual), Above(files, required) - {actual});
  }

  lemma {:induction false} SubsetSize(a: set<real>, b: set<real>)
    requires a <= b
    ensures |a| <= |b|
  {
    assert b == a + (b - a);
  }

  /** Each partition found is more efficient than the one before it. */
  ghost predicate EverBetter(files: seq<File>, partitions: seq<seq<seq<nat>>>)
    requires SameEntries(files)
  {
    (forall k :: 0 <= k < |partitions| ==>
       IsPartition(partitions[k], |files|) && AllBeat(files, partitions[k], 0.0)) &&
    forall k, l :: 0 <= k < l < |partitions| ==>
      PartitionEfficiency(files, partitions[k]) < PartitionEfficiency(files, partitions[l]) &&
      LessEfficient(files, partitions[k], partitions[l])
  }

  /** Every file is alone, or no subset can be better. */
  ghost predicate CannotImprove(files: seq<File>, parts: seq<seq<nat>>)
    requires SameEntries(files) && forall p :: 0 <= p < |parts| ==> FilesOf(parts[p], files)
  {
    |parts| == |files| || forall p :: 0 <= p < |parts| ==> Efficiency(files, parts[p]) == 1.0
  }

  lemma EnoughToStop(files: seq<File>, parts: seq<seq<nat>>)
    requires SameEntries(files) && forall p :: 0 <= p < |parts| ==> FilesOf(parts[p], files)
    requires |parts| == |files| || PartitionEfficiency(files, parts) == 1.0
    ensures CannotImprove(files, parts)
  {
    hide Efficiency, SameEntries, PartitionEfficiency;
    if PartitionEfficiency(files, parts) == 1.0 {
      EfficiencyOne(files, parts);
    }
  }

  /**
   The outer search: it ends, the required efficiency it passes on is always below 1, and the last
   partition has every file for itself or efficiency 1.
   */
  method Search(files: seq<File>) returns (partitions: seq<seq<seq<nat>>>)
    requires SameEntries(files)
    ensures partitions != [] && EverBetter(files, partitions)
    ensures CannotImprove(files, partitions[|partitions| - 1])
  {
    hide Efficiency, Values, IsPartition, LessEfficient, PartitionEfficiency, CannotImprove, SameEntries;
    var required := 0.0;
    partitions := [];
    while true
      invariant 0.0 <= required < 1.0
      invariant EverBetter(files, partitions)
      invariant forall k :: 0 <= k < |partitions| ==> PartitionEfficiency(files, partitions[k]) <= required
      decreases |Above(files, required)|
    {
      var parts := FindPartition(files, required);
      PartitionEfficiencyBeats(files, parts, required);
      var actual := EfficiencyOfPartition(files, parts);
      forall k | 0 <= k < |partitions| ensures LessEfficient(files, partitions[k], parts) {
        LessEfficientSubset(files, partitions[k], parts);
      }
      partitions := partitions + [parts];
      if |parts| == |files| || actual == 1.0 {
        EnoughToStop(files, parts);
        break;
      }
      FewerAbove(files, required, actual);
      required := actual;
    }
  }

  // ----- the pruning -----

  /** Strictly ascending positions in a list of n partitions. */
  ghost predicate Positions(at: seq<nat>, n: nat) {
    (forall k :: 0 <= k < |at| ==> at[k] < n) && forall k, l :: 0 <= k < l < |at| ==> at[k] < at[l]
  }

  /** Some partition of the list after position i has no more subsets than the one at i. */
  ghost predicate Beaten(ps: seq<seq<seq<nat>>>, at: seq<nat>, i: nat)
    requires Positions(at, |ps|) && i < |ps|
  {
    exists k :: 0 <= k < |at| && i < at[k] && |ps[at[k]]| <= |ps[i]|
  }

  /** Every partition is among those at the positions or beaten by one of them. */
  ghost predicate Covered(ps: seq<seq<seq<nat>>>, at: seq<nat>) {
    Positions(at, |ps|) && forall i :: 0 <= i < |ps| ==> i in at || Beaten(ps, at, i)
  }

  lemma AllCovered(ps: seq<seq<seq<nat>>>)
    ensures Covered(ps, Range(|ps|))
  {
    forall i | 0 <= i < |ps| ensures i in Range(|ps|) {
      assert Range(|ps|)[i] == i;
    }
  }

  lemma EraseKeepsCovered(ps: seq<seq<seq<nat>>>, at: seq<nat>, e: nat)
    requires Covered(ps, at) && e + 1 < |at| && |ps[at[e]]| >= |ps[at[e + 1]]|
    ensures Covered(ps, at[..e] + at[e + 1..])
  {
    var less := at[..e] + at[e + 1..];
    assert Positions(less, |ps|);
    forall i | 0 <= i < |ps| ensures i in less || Beaten(ps, less, i) {
      EraseKeepsBeaten(ps, at, e, i);
    }
  }

  lemma EraseKeepsBeaten(ps: seq<seq<seq<nat>>>, at: seq<nat>, e: nat, i: nat)
    requires Positions(at, |ps|) && e + 1 < |at| && |ps[at[e]]| >= |ps[at[e + 1]]|
    requires i < |ps| && (i in at || Beaten(ps, at, i))
    ensures Positions(at[..e] + at[e + 1..], |ps|)
    ensures i in at[..e] + at[e + 1..] || Beaten(ps, at[..e] + at[e + 1..], i)
  {
    var less := at[..e] + at[e + 1..];
    assert less[e] == at[e + 1];
    if i in at {
      var k :| 0 <= k < |at| && at[k] == i;
      if k != e {
        var l := Where(at, e, k);
      }
    } else {
      var k :| 0 <= k < |at| && i < at[k] && |ps[at[k]]| <= |ps[i]|;
      if k != e {
        var l := Where(at, e, k);
      }
    }
  }

  /** Where an entry is after another one was erased. */
  lemma Where(at: seq<nat>, e: nat, k: nat) returns (l: nat)
    requires e < |at| && k < |at| && k != e
    ensures l < |at| - 1 && (at[..e] + at[e + 1..])[l] == at[k]
  {
    l := if k < e then k else k - 1;
  }

  /** The partition at i has fewer subsets than every later one. */
  ghost predicate FewerThanLater(ps: seq<seq<seq<nat>>>, i: nat)
    requires i < |ps|
  {
    forall j :: i < j < |ps| ==> |ps[i]| < |ps[j]|
  }

  ghost predicate Frontier(ps: seq<seq<seq<nat>>>, at: seq<nat>) {
    Positions(at, |ps|) && forall i :: 0 <= i < |ps| ==> (i in at <==> FewerThanLater(ps, i))
  }

  lemma PrunedIsFrontier(ps: seq<seq<seq<nat>>>, at: seq<nat>)
    requires Covered(ps, at)
    requires forall k :: 0 <= k < |at| - 1 ==> |ps[at[k]]| < |ps[at[k + 1]]|
    ensures Frontier(ps, at)
  {
    forall i | 0 <= i < |ps| ensures i in at <==> FewerThanLater(ps, i) {
      if i in at {
        var k :| 0 <= k < |at| && at[k] == i;
        forall j | i < j < |ps| ensures |ps[i]| < |ps[j]| {
          assert j in at || Beaten(ps, at, j);
          if j in at {
            var l :| 0 <= l < |at| && at[l] == j;
            SizesAscend(ps, at, k, l);
          } else {
            var l :| 0 <= l < |at| && j < at[l] && |ps[at[l]]| <= |ps[j]|;
            SizesAscend(ps, at, k, l);
          }
        }
      }
    }
  }

  lemma {:induction false} SizesAscend(ps: seq<seq<seq<nat>>>, at: seq<nat>, k: nat, l: nat)
    requires Positions(at, |ps|) && k < |at| && l < |at| && at[k] < at[l]
    requires forall k :: 0 <= k < |at| - 1 ==> |ps[at[k]]| < |ps[at[k + 1]]|
    ensures |ps[at[k]]| < |ps[at[l]]|
    decreases l
  {
    assert k < l;
    if k < l - 1 {
      SizesAscend(ps, at, k, l - 1);
    }
  }

  /** The loops that erase partitions, starting over after each erasure. */
  method Prune(ps: seq<seq<seq<nat>>>) returns (kept: seq<seq<seq<nat>>>, ghost at: seq<nat>)
    requires ps != []
    ensures forall k, l :: 0 <= k < l < |kept| ==> |kept[k]| < |kept[l]|
    ensures forall p :: p in kept <==> exists i :: 0 <= i < |ps| && ps[i] == p && FewerThanLater(ps, i)
    ensures Frontier(ps, at) && |kept| == |at| > 0
    ensures forall k :: 0 <= k < |at| ==> at[k] < |ps| && kept[k] == ps[at[k]]
  {
    hide Covered, Frontier;
    kept, at := ps, Range(|ps|);
    AllCovered(ps);
    while true
      invariant Covered(ps, at) && |kept| == |at| > 0
      invariant forall k :: 0 <= k < |at| ==> at[k] < |ps| && kept[k] == ps[at[k]]
      decreases |kept|
    {
      var repeat := false;
      for i := 0 to |kept| - 1
        invariant !repeat
        invariant forall k :: 0 <= k < i ==> |kept[k]| < |kept[k + 1]|
      {
        if |kept[i]| >= |kept[i + 1]| {
          EraseKeepsCovered(ps, at, i);
          kept, at := kept[..i] + kept[i + 1..], at[..i] + at[i + 1..];
          repeat := true;
          break;
        }
      }
      if !repeat {
        PrunedIsFrontier(ps, at);
        LastStays(ps, at);
        KeptAreFrontier(ps, at, kept);
        break;
      }
    }
  }

  lemma LastStays(ps: seq<seq<seq<nat>>>, at: seq<nat>)
    requires ps != [] && Frontier(ps, at)
    ensures at != [] && at[|at| - 1] == |ps| - 1
    ensures forall k, l :: 0 <= k < l < |at| ==> at[k] < at[l] < |ps| && |ps[at[k]]| < |ps[at[l]]|
  {
    assert |ps| - 1 in at;
    forall k, l | 0 <= k < l < |at| ensures at[k] < at[l] < |ps| && |ps[at[k]]| < |ps[at[l]]| {
      assert at[k] in at;
    }
  }

  lemma KeptAreFrontier(ps: seq<seq<seq<nat>>>, at: seq<nat>, kept: seq<seq<seq<nat>>>)
    requires Frontier(ps, at) && |kept| == |at|
    requires forall k :: 0 <= k < |at| ==> at[k] < |ps| && kept[k] == ps[at[k]]
    ensures forall p :: p in kept <==> exists i :: 0 <= i < |ps| && ps[i] == p && FewerThanLater(ps, i)
  {
    hide FewerThanLater;
    forall p ensures p in kept <==> exists i :: 0 <= i < |ps| && ps[i] == p && FewerThanLater(ps, i) {
      if p in kept {
        var k :| 0 <= k < |kept| && kept[k] == p;
        assert at[k] in at;
      }
      if exists i :: 0 <= i < |ps| && ps[i] == p && FewerThanLater(ps, i) {
        var i :| 0 <= i < |ps| && ps[i] == p && FewerThanLater(ps, i);
        var k :| 0 <= k < |at| && at[k] == i;
        assert kept[k] == p;
      }
    }
  }

  /** What is printed: partitions that win in efficiency whenever they lose in the number of subsets. */
  method PartitionFiles(files: seq<File>) returns (kept: seq<seq<seq<nat>>>)
    requires SameEntries(files)
    ensures kept != [] && EverBetter(files, kept)
    ensures forall k, l :: 0 <= k < l < |kept| ==> |kept[k]| < |kept[l]|
    ensures CannotImprove(files, kept[|kept| - 1])
  {
    hide PartitionEfficiency, IsPartition, SameEntries, Frontier, LessEfficient, Efficiency;
    var partitions := Search(files);
    ghost var at;
    kept, at := Prune(partitions);
    LastStays(partitions, at);
  }

  lemma BeatenInSize(ps: seq<seq<seq<nat>>>, at: seq<nat>, i: nat) returns (k: nat)
    requires Frontier(ps, at) && i < |ps| && i !in at
    ensures k in at && i < k < |ps| && |ps[k]| <= |ps[i]|
    decreases |ps| - i
  {
    k :| i < k < |ps| && |ps[k]| <= |ps[i]|;
    if k !in at {
      k := BeatenInSize(ps, at, k);
    }
  }

  /** A partition that is pruned away is beaten on both counts by one that is kept. */
  lemma PrunedIsBeaten(files: seq<File>, ps: seq<seq<seq<nat>>>, at: seq<nat>, i: nat)
    requires SameEntries(files) && EverBetter(files, ps) && Frontier(ps, at) && i < |ps| && i !in at
    ensures exists k :: k in at && k < |ps| && |ps[k]| <= |ps[i]| && LessEfficient(files, ps[i], ps[k])
  {
    hide PartitionEfficiency, IsPartition, LessEfficient, SameEntries, Efficiency, Frontier;
    var k := BeatenInSize(ps, at, i);
    assert LessEfficient(files, ps[i], ps[k]);
  }
}
