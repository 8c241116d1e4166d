/**
 Four files on which the narrowing rounds of the analyzer settle on a file that is in no best pair of
 the candidates, because the second round measures the files at positions 0, 1 and 2 for the
 candidates at positions 1, 2 and 3.
 */
module NarrowingWitness {
  import opened Subsets
  import opened Partition
  import opened PartitionSearch

  function Measured(a: real, b: real, c: real): File {
    [Entry(1, 1, a), Entry(1, 2, b), Entry(1, 3, c)]
  }

  /** One product size, three block sizes; every file reaches 1 with one of them. */
  function FourFiles(): (files: seq<File>)
    ensures |files| == 4 && SameEntries(files)
  {
    [Measured(0.0, 0.0, 1.0), Measured(0.5, 0.0, 1.0), Measured(0.5, 1.0, 0.0), Measured(0.5, 1.0, 0.0)]
  }

  function At(i: nat, e: nat): real
    requires i < 4 && e < 3
  {
    FourFiles()[i][e].efficiency
  }

  // ----- the efficiencies -----

  /** With a single product size the efficiency is that of the best of the three block sizes. */
  lemma OneRun(subset: seq<nat>)
    requires FilesOf(subset, FourFiles()) && |subset| > 1
    ensures Efficiency(FourFiles(), subset) ==
            Min(Max(Max(Max(0.0, EntryEfficiency(FourFiles(), subset, 0)), EntryEfficiency(FourFiles(), subset, 1)),
                    EntryEfficiency(FourFiles(), subset, 2)), 1.0)
  {
    hide EntryEfficiency;
    var files := FourFiles();
    assert RunEnd(files[0], 0, 1) == 3 by {
      assert RunEnd(files[0], 0, 3) == 3;
      assert RunEnd(files[0], 0, 2) == 3;
    }
    assert EfficiencyFrom(files, subset, 3) == 1.0;
    assert BestEntry(files, subset, 0, 0) == 0.0;
    assert BestEntry(files, subset, 0, 1) == Max(0.0, EntryEfficiency(files, subset, 0));
    assert BestEntry(files, subset, 0, 2) == Max(BestEntry(files, subset, 0, 1), EntryEfficiency(files, subset, 1));
  }

  lemma OfTwo(i: nat, j: nat, e: nat)
    requires i < 4 && j < 4 && e < 3
    ensures EntryEfficiency(FourFiles(), [i, j], e) == Min(Min(1.0, At(i, e)), At(j, e))
  {
    assert [i, j][..1] == [i] && [i][..0] == [];
    assert EntryEfficiency(FourFiles(), [i], e) == Min(1.0, At(i, e));
  }

  lemma OfThree(i: nat, j: nat, k: nat, e: nat)
    requires i < 4 && j < 4 && k < 4 && e < 3
    ensures EntryEfficiency(FourFiles(), [i, j, k], e) == Min(Min(Min(1.0, At(i, e)), At(j, e)), At(k, e))
  {
    OfTwo(i, j, e);
    assert [i, j, k][..2] == [i, j];
  }

  lemma Pair(i: nat, j: nat)
    requires i < j < 4
    ensures Efficiency(FourFiles(), [i, j]) ==
            if i == 0 then (if j == 1 then 1.0 else 0.0) else if i == 2 then 1.0 else 0.5
  {
    hide EntryEfficiency, Efficiency;
    OneRun([i, j]);
    OfTwo(i, j, 0);
    OfTwo(i, j, 1);
    OfTwo(i, j, 2);
  }

  lemma Triple(i: nat, j: nat, k: nat)
    requires i < j < k < 4
    ensures Efficiency(FourFiles(), [i, j, k]) == if i == 0 then 0.0 else 0.5
  {
    hide EntryEfficiency, Efficiency;
    OneRun([i, j, k]);
    OfThree(i, j, k, 0);
    OfThree(i, j, k, 1);
    OfThree(i, j, k, 2);
  }

  // ----- the rounds -----

  lemma Trial(s: seq<nat>)
    requires IsSubset(s, 4)
    ensures Searchable(FourFiles(), Range(4), []) && IsSubset(s, |Range(4)|)
    ensures TrialEfficiency(FourFiles(), Range(4), [], s) == Efficiency(FourFiles(), s)
  {
    assert [] + Pick(Range(4), s) == s;
  }

  lemma BestTriple(best: seq<nat>, efficiency: real)
    requires FirstBest(FourFiles(), Range(4), [], 3, 4, best, efficiency)
    ensures best == [1, 2, 3] && efficiency == 0.5
  {
    hide TrialEfficiency, Efficiency, LexLess, FourFiles;
    Trial([1, 2, 3]);
    Triple(1, 2, 3);
    if best != [] {
      assert best == [best[0], best[1], best[2]];
      Trial(best);
      Triple(best[0], best[1], best[2]);
    }
  }

  lemma BestPair(best: seq<nat>, efficiency: real)
    requires FirstBest(FourFiles(), Range(4), [], 2, 3, best, efficiency)
    ensures best == [0, 1] && efficiency == 1.0
  {
    hide TrialEfficiency, Efficiency, LexLess, FourFiles;
    Trial([0, 1]);
    Pair(0, 1);
    if best != [] {
      assert best == [best[0], best[1]];
      Trial(best);
      Pair(best[0], best[1]);
    }
  }

  lemma BestSingle(best: seq<nat>, efficiency: real)
    requires FirstBest(FourFiles(), Range(4), [], 1, 2, best, efficiency)
    ensures best == [0] && efficiency == 1.0
  {
    hide TrialEfficiency, Efficiency, FourFiles;
    Trial([0]);
    AloneIsOne(FourFiles(), [0]);
    assert LessAt([0], [1], 0);
    assert LexLess([0], [1]);
    if best != [] {
      assert best == [best[0]];
      Trial(best);
      AloneIsOne(FourFiles(), best);
    }
  }

  ghost predicate Settles(size: nat, candidates: seq<nat>, index: nat) {
    Searchable(FourFiles(), Range(4), []) && Candidates(candidates, Range(4)) && size <= |candidates| &&
    Rounds(FourFiles(), 0.0, Range(4), [], size, candidates, index)
  }

  lemma OneRound(size: nat, candidates: seq<nat>, index: nat) returns (best: seq<nat>, efficiency: real)
    requires size >= 1 && Settles(size, candidates, index)
    ensures Searchable(FourFiles(), Range(4), []) && Candidates(candidates, Range(4))
    ensures FirstBest(FourFiles(), Range(4), [], size, |candidates|, best, efficiency)
    ensures efficiency > 0.0 ==> IsSubset(best, |candidates|)
    ensures Settles(size - 1, Narrowed(candidates, best, efficiency > 0.0), index)
  {
    hide TrialEfficiency, FourFiles, Searchable, Candidates, Rounds, FirstBest, Narrowed, IsSubset;
    best, efficiency := FirstRound(FourFiles(), 0.0, Range(4), [], size, candidates, index);
  }

  lemma RoundOfThree(size: nat, index: nat)
    requires size == 3 && Settles(size, Range(4), index)
    ensures Settles(size - 1, [1, 2, 3], index)
  {
    hide Settles, FirstBest, FourFiles;
    var best, efficiency := OneRound(size, Range(4), index);
    BestTriple(best, efficiency);
    assert Pick(Range(4), best) == [1, 2, 3];
  }

  lemma RoundOfTwo(size: nat, index: nat)
    requires size == 2 && Settles(size, [1, 2, 3], index)
    ensures Settles(size - 1, [1, 2], index)
  {
    hide Settles, FirstBest, FourFiles;
    var best, efficiency := OneRound(size, [1, 2, 3], index);
    BestPair(best, efficiency);
    assert Pick([1, 2, 3], best) == [1, 2];
  }

  lemma RoundOfOne(size: nat, index: nat)
    requires size == 1 && Settles(size, [1, 2], index)
    ensures index == 1
  {
    hide Settles, FirstBest, FourFiles;
    var best, efficiency := OneRound(size, [1, 2], index);
    BestSingle(best, efficiency);
    assert Pick([1, 2], best) == [1];
    SettledOnFirst([1], index);
  }

  lemma SettledOnFirst(candidates: seq<nat>, index: nat)
    requires Settles(0, candidates, index)
    ensures candidates != [] && index == candidates[0]
  {
    hide FourFiles, Searchable;
  }

  /** The pair of files 2 and 3 is better than the pairs of file 1 with one of them. */
  ghost predicate OneIsInNoBestPair() {
    Efficiency(FourFiles(), [1, 2]) < Efficiency(FourFiles(), [2, 3]) &&
    Efficiency(FourFiles(), [1, 3]) < Efficiency(FourFiles(), [2, 3])
  }

  /**
   The rounds start with triples, narrow to files 1, 2 and 3, and settle on file 1, although of these
   candidates it is in no best pair.
   */
  lemma SettlesOnTheWrongFile(most: nat, index: nat)
    requires most == 3 && Settles(most, Range(4), index)
    ensures Feasible(4, 3) && index == 1 && OneIsInNoBestPair()
  {
    hide Efficiency, FourFiles, Feasible, Settles;
    ThreeAreFeasible();
    RoundOfThree(most, index);
    RoundOfTwo(most - 1, index);
    RoundOfOne(most - 2, index);
    Pair(1, 2);
    Pair(1, 3);
    Pair(2, 3);
  }

  lemma ThreeAreFeasible()
    ensures Feasible(4, 3)
  {
    assert FallingFactorial(4, 1) == 4 && FallingFactorial(4, 2) == 12 && FallingFactorial(4, 3) == 24;
    assert Factorial(1) == 1 && Factorial(2) == 2 && Factorial(3) == 6;
  }

  /** What the code chooses first of the four files when it has to beat 0. */
  method ChooseOfFour() returns (index: nat)
    ensures index == 1 && OneIsInNoBestPair()
  {
    hide FourFiles, Rounds, Settled, OneIsInNoBestPair;
    var files := FourFiles();
    var remainder: seq<nat> := Range(4);
    var chosen: seq<nat> := [];
    ghost var most;
    index, most := ChooseCandidate(files, 0.0, remainder, chosen);
    ThreeAreFeasible();
    SettlesOnTheWrongFile(most, index);
  }
}
