/**
 The efficiency of a subset of the analyzer's input files: what the nested loops compute, and what it
 means. Efficiencies are reals: only comparison, minimum and maximum are applied to them.
 */
module Partition {
  datatype Entry = Entry(productSize: nat, blockSize: nat, efficiency: real)

  type File = seq<Entry>

  /** What reading and check_all_files_in_same_exact_order leave: files over one list of sizes. */
  predicate SameEntries(files: seq<File>) {
    |files| > 0 && |files[0]| > 0 &&
    (forall f :: 0 <= f < |files| ==> |files[f]| == |files[0]|) &&
    (forall f, e :: 0 <= f < |files| && 0 <= e < |files[0]| ==> files[f][e].productSize == files[0][e].productSize)
  }

  predicate FilesOf(subset: seq<nat>, files: seq<File>) {
    forall i :: 0 <= i < |subset| ==> subset[i] < |files|
  }

  function Min(a: real, b: real): real {
    if b < a then b else a
  }

  function Max(a: real, b: real): real {
    if a < b then b else a
  }

  // ----- the efficiency of a subset of files -----

  /** The worst efficiency any file of the subset has at entry e, and 1 if that is less. */
  function EntryEfficiency(files: seq<File>, subset: seq<nat>, e: nat): real
    requires SameEntries(files) && FilesOf(subset, files) && (subset != [] ==> e < |files[0]|)
  {
    if subset == [] then 1.0
    else Min(EntryEfficiency(files, subset[..|subset| - 1], e), files[subset[|subset| - 1]][e].efficiency)
  }

  /** The best entry efficiency from lo up to hi, and 0 if that is more. */
  function BestEntry(files: seq<File>, subset: seq<nat>, lo: nat, hi: nat): real
    requires SameEntries(files) && FilesOf(subset, files) && subset != [] && lo <= hi <= |files[0]|
  {
    if lo == hi then 0.0 else Max(BestEntry(files, subset, lo, hi - 1), EntryEfficiency(files, subset, hi - 1))
  }

  /** Where the run of entries with the product size of entry lo ends. */
  function RunEnd(file: File, lo: nat, hi: nat): (end: nat)
    requires lo < hi <= |file|
    ensures hi <= end <= |file|
    decreases |file| - hi
  {
    if hi == |file| || file[hi].productSize != file[lo].productSize then hi else RunEnd(file, lo, hi + 1)
  }

  function EfficiencyFrom(files: seq<File>, subset: seq<nat>, lo: nat): real
    requires SameEntries(files) && FilesOf(subset, files) && subset != [] && lo <= |files[0]|
    decreases |files[0]| - lo
  {
    if lo == |files[0]| then 1.0
    else
      var hi := RunEnd(files[0], lo, lo + 1);
      Min(BestEntry(files, subset, lo, hi), EfficiencyFrom(files, subset, hi))
  }

  function Efficiency(files: seq<File>, subset: seq<nat>): real
    requires SameEntries(files) && FilesOf(subset, files)
  {
    if |subset| <= 1 then 1.0 else EfficiencyFrom(files, subset, 0)
  }

  // ----- what the efficiency means -----

  ghost predicate SameRun(file: File, e: nat, f: nat)
    requires e < |file| && f < |file|
  {
    forall i :: (e <= i <= f || f <= i <= e) ==> file[i].productSize == file[e].productSize
  }

  /** Some entry for the product size of e works at efficiency x or better in every file of the subset. */
  ghost predicate ServedAt(files: seq<File>, subset: seq<nat>, e: nat, x: real)
    requires SameEntries(files) && FilesOf(subset, files) && subset != [] && e < |files[0]|
  {
    exists f :: 0 <= f < |files[0]| && SameRun(files[0], e, f) &&
      forall i :: 0 <= i < |subset| ==> x <= files[subset[i]][f].efficiency
  }

  lemma {:induction false} EntryEfficiencyMeans(files: seq<File>, subset: seq<nat>, e: nat, x: real)
    requires SameEntries(files) && FilesOf(subset, files) && (subset != [] ==> e < |files[0]|)
    ensures x <= EntryEfficiency(files, subset, e) <==>
            x <= 1.0 && forall i :: 0 <= i < |subset| ==> x <= files[subset[i]][e].efficiency
  {
    if subset != [] {
      var n := |subset| - 1;
      EntryEfficiencyMeans(files, subset[..n], e, x);
      assert forall i :: 0 <= i < n ==> subset[..n][i] == subset[i];
    }
  }

  lemma {:induction false} BestEntryMeans(files: seq<File>, subset: seq<nat>, lo: nat, hi: nat, x: real)
    requires SameEntries(files) && FilesOf(subset, files) && subset != [] && lo <= hi <= |files[0]|
    ensures x <= BestEntry(files, subset, lo, hi) <==>
            x <= 0.0 || exists f :: lo <= f < hi && x <= EntryEfficiency(files, subset, f)
    decreases hi
  {
    if lo < hi {
      BestEntryMeans(files, subset, lo, hi - 1, x);
      hide EntryEfficiency;
      assert (exists f :: lo <= f < hi && x <= EntryEfficiency(files, subset, f)) <==>
             (exists f :: lo <= f < hi - 1 && x <= EntryEfficiency(files, subset, f)) ||
             x <= EntryEfficiency(files, subset, hi - 1);
    }
  }

  lemma {:induction false} RunEndIsRun(file: File, lo: nat, hi: nat)
    requires lo < hi <= |file|
    requires forall i :: lo <= i < hi ==> file[i].productSize == file[lo].productSize
    ensures var end := RunEnd(file, lo, hi);
            (forall i :: lo <= i < end ==> file[i].productSize == file[lo].productSize) &&
            (end < |file| ==> file[end].productSize != file[lo].productSize)
    decreases |file| - hi
  {
    if hi < |file| && file[hi].productSize == file[lo].productSize {
      RunEndIsRun(file, lo, hi + 1);
    }
  }

  /** lo is the first entry of a run. */
  predicate StartsRun(file: File, lo: nat) {
    lo <= |file| && (0 < lo < |file| ==> file[lo - 1].productSize != file[lo].productSize)
  }

  lemma RunsDoNotOverlap(file: File, lo: nat, hi: nat, e: nat, f: nat)
    requires lo <= e < hi <= |file| && f < |file| && SameRun(file, e, f) && StartsRun(file, lo)
    requires forall i :: lo <= i < hi ==> file[i].productSize == file[lo].productSize
    requires hi < |file| ==> file[hi].productSize != file[lo].productSize
    ensures lo <= f < hi
  {
  }

  lemma RunServes(files: seq<File>, subset: seq<nat>, lo: nat, e: nat, x: real)
    requires SameEntries(files) && FilesOf(subset, files) && subset != [] && 0.0 < x <= 1.0
    requires lo < |files[0]| && StartsRun(files[0], lo) && lo <= e < RunEnd(files[0], lo, lo + 1)
    ensures x <= BestEntry(files, subset, lo, RunEnd(files[0], lo, lo + 1)) <==> ServedAt(files, subset, e, x)
  {
    var file, hi := files[0], RunEnd(files[0], lo, lo + 1);
    RunEndIsRun(file, lo, lo + 1);
    BestEntryMeans(files, subset, lo, hi, x);
    if x <= BestEntry(files, subset, lo, hi) {
      var f :| lo <= f < hi && x <= EntryEfficiency(files, subset, f);
      EntryEfficiencyMeans(files, subset, f, x);
      assert SameRun(file, e, f);
    }
    if ServedAt(files, subset, e, x) {
      var f :| 0 <= f < |file| && SameRun(file, e, f) &&
               forall i :: 0 <= i < |subset| ==> x <= files[subset[i]][f].efficiency;
      EntryEfficiencyMeans(files, subset, f, x);
      RunsDoNotOverlap(file, lo, hi, e, f);
    }
  }

  lemma {:induction false} EfficiencyFromMeans(files: seq<File>, subset: seq<nat>, lo: nat, x: real)
    requires SameEntries(files) && FilesOf(subset, files) && subset != [] && 0.0 < x <= 1.0
    requires StartsRun(files[0], lo)
    ensures x <= EfficiencyFrom(files, subset, lo) <==>
            forall e :: lo <= e < |files[0]| ==> ServedAt(files, subset, e, x)
    decreases |files[0]| - lo
  {
    if lo < |files[0]| {
      var hi := RunEnd(files[0], lo, lo + 1);
      RunEndIsRun(files[0], lo, lo + 1);
      EfficiencyFromMeans(files, subset, hi, x);
      forall e | lo <= e < hi
        ensures x <= BestEntry(files, subset, lo, hi) <==> ServedAt(files, subset, e, x)
      {
        RunServes(files, subset, lo, e, x);
      }
      if forall e :: lo <= e < |files[0]| ==> ServedAt(files, subset, e, x) {
        assert ServedAt(files, subset, lo, x);
      }
    }
  }

  /**
   A subset of two or more files reaches a positive efficiency x exactly when x is at most 1 and for
   every product size some block size works at x or better in all its files.
   */
  lemma EfficiencyMeans(files: seq<File>, subset: seq<nat>, x: real)
    requires SameEntries(files) && FilesOf(subset, files) && |subset| > 1 && x > 0.0
    ensures x <= Efficiency(files, subset) <==>
            x <= 1.0 && forall e :: 0 <= e < |files[0]| ==> ServedAt(files, subset, e, x)
  {
    if x <= 1.0 {
      EfficiencyFromMeans(files, subset, 0, x);
    } else {
      AtMostOne(files, subset, 0);
    }
  }

  lemma {:induction false} AtMostOne(files: seq<File>, subset: seq<nat>, lo: nat)
    requires SameEntries(files) && FilesOf(subset, files) && subset != [] && lo <= |files[0]|
    ensures EfficiencyFrom(files, subset, lo) <= 1.0
    decreases |files[0]| - lo
  {
    if lo < |files[0]| {
      AtMostOne(files, subset, RunEnd(files[0], lo, lo + 1));
    }
  }

  /** The best efficiency of a run of entries, as the two inner loops compute it. */
  method BestOfRun(files: seq<File>, subset: seq<nat>, lo: nat, hi: nat) returns (best: real)
    requires SameEntries(files) && FilesOf(subset, files) && subset != [] && lo <= hi <= |files[0]|
    ensures best == BestEntry(files, subset, lo, hi)
  {
    best := 0.0;
    for e := lo to hi
      invariant best == BestEntry(files, subset, lo, e)
    {
      var worst := 1.0;
      for i := 0 to |subset|
        invariant worst == EntryEfficiency(files, subset[..i], e)
      {
        assert subset[..i + 1][..i] == subset[..i];
        worst := Min(worst, files[subset[i]][e].efficiency);
      }
      assert subset[..|subset|] == subset;
      best := Max(best, worst);
    }
  }

  method EfficiencyOfSubset(files: seq<File>, subset: seq<nat>) returns (efficiency: real)
    requires SameEntries(files) && FilesOf(subset, files)
    ensures efficiency == Efficiency(files, subset)
  {
    if |subset| <= 1 {
      return 1.0;
    }
    var first := files[subset[0]];
    var entries := |first|;
    efficiency := 1.0;
    var entry, start := 0, 0;
    var productSize := first[0].productSize;
    ghost var total := EfficiencyFrom(files, subset, 0);
    AtMostOne(files, subset, 0);
    while entry < entries
      invariant start <= entry <= entries && start < entries
      invariant productSize == files[0][start].productSize
      invariant start < entry < entries ==> RunEnd(files[0], start, entry) == RunEnd(files[0], start, start + 1)
      invariant start < entry < entries ==> files[0][entry].productSize == productSize
      invariant efficiency <= 1.0
      invariant if entry < entries then Min(efficiency, EfficiencyFrom(files, subset, start)) == total
                else efficiency == total
    {
      entry := entry + 1;
      if entry == entries || first[entry].productSize != productSize {
        assert RunEnd(files[0], start, start + 1) == entry;
        var best := BestOfRun(files, subset, start, entry);
        efficiency := Min(efficiency, best);
        if entry < entries {
          start := entry;
          productSize := first[entry].productSize;
        }
      }
    }
  }

  // ----- the values an efficiency can take -----

  ghost function Values(files: seq<File>): set<real> {
    {0.0, 1.0} + set f, e | 0 <= f < |files| && 0 <= e < |files[f]| :: files[f][e].efficiency
  }

  lemma {:induction false} EntryEfficiencyIsValue(files: seq<File>, subset: seq<nat>, e: nat)
    requires SameEntries(files) && FilesOf(subset, files) && (subset != [] ==> e < |files[0]|)
    ensures EntryEfficiency(files, subset, e) in Values(files)
  {
    if subset != [] {
      EntryEfficiencyIsValue(files, subset[..|subset| - 1], e);
    }
  }

  lemma {:induction false} BestEntryIsValue(files: seq<File>, subset: seq<nat>, lo: nat, hi: nat)
    requires SameEntries(files) && FilesOf(subset, files) && subset != [] && lo <= hi <= |files[0]|
    ensures BestEntry(files, subset, lo, hi) in Values(files)
    decreases hi
  {
    if lo < hi {
      BestEntryIsValue(files, subset, lo, hi - 1);
      EntryEfficiencyIsValue(files, subset, hi - 1);
    }
  }

  lemma {:induction false} EfficiencyFromIsValue(files: seq<File>, subset: seq<nat>, lo: nat)
    requires SameEntries(files) && FilesOf(subset, files) && subset != [] && lo <= |files[0]|
    ensures EfficiencyFrom(files, subset, lo) in Values(files)
    decreases |files[0]| - lo
  {
    if lo < |files[0]| {
      BestEntryIsValue(files, subset, lo, RunEnd(files[0], lo, lo + 1));
      EfficiencyFromIsValue(files, subset, RunEnd(files[0], lo, lo + 1));
    }
  }

  lemma EfficiencyIsValue(files: seq<File>, subset: seq<nat>)
    requires SameEntries(files) && FilesOf(subset, files)
    ensures Efficiency(files, subset) in Values(files) && Efficiency(files, subset) <= 1.0
  {
    if |subset| > 1 {
      EfficiencyFromIsValue(files, subset, 0);
      AtMostOne(files, subset, 0);
    }
  }
}
