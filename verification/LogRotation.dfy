/**
 The size-based rotating log sink: the names of its files, the loop that shifts them by one place, and
 the sink that appends a message to the live file and rotates when it would grow too large. File
 operations succeed.
 */
module LogRotation {
  import opened Bytes
  import opened JsonNumber

  const TWO_TO_THE_31 := 0x8000_0000
  const TWO_TO_THE_32 := 0x1_0000_0000

  /** What is left of a number that is passed on as an int32_t. */
  function Narrow(x: int): int {
    if x % TWO_TO_THE_32 >= TWO_TO_THE_31 then x % TWO_TO_THE_32 - TWO_TO_THE_32 else x % TWO_TO_THE_32
  }

  // ----- the names -----

  function Digits(figure: nat): nat {
    if figure == 0 then 0 else Digits(figure / 10) + 1
  }

  function DigitsOf(figure: int): int {
    if figure < 0 then -1 else Digits(figure)
  }

  method DigitCount(figure: int) returns (count: int)
    ensures count == DigitsOf(figure)
  {
    if figure < 0 {
      return -1;
    }
    count := 0;
    var rest := figure;
    while rest > 0
      invariant rest >= 0 && count + Digits(rest) == Digits(figure)
    {
      count := count + 1;
      rest := rest / 10;
    }
  }

  function Zeros(n: nat): bytes {
    seq(n, _ => ZERO)
  }

  function Padding(width: int, index: int): nat {
    if width > DigitsOf(index) then width - DigitsOf(index) else 0
  }

  /** The decimal of the index, left-padded with zeros; 0 counts as a number without digits. */
  function Padded(width: int, index: int): bytes {
    Zeros(Padding(width, index)) + IntToDecimal(index)
  }

  method IndexOnDigitCount(width: int, index: int) returns (text: bytes)
    ensures text == Padded(width, index)
  {
    hide Digits, IntToDecimal;
    text := IntToDecimal(index);
    var count := DigitCount(index);
    assert text == Zeros(0) + IntToDecimal(index);
    while count < width
      invariant DigitsOf(index) <= count
      invariant count <= width || count == DigitsOf(index)
      invariant text == Zeros(count - DigitsOf(index)) + IntToDecimal(index)
    {
      assert Zeros(count + 1 - DigitsOf(index)) == [ZERO] + Zeros(count - DigitsOf(index));
      text := [ZERO] + text;
      count := count + 1;
    }
  }

  /** A positive number has as many digits as its decimal text. */
  lemma {:induction false} DigitsCountDecimal(n: nat)
    ensures n > 0 ==> Digits(n) == |NatToDecimal(n)|
  {
    if n >= 10 {
      DigitsCountDecimal(n / 10);
    }
  }

  lemma {:induction false} DigitsGrow(m: nat, n: nat)
    requires m <= n
    ensures Digits(m) <= Digits(n)
    decreases n
  {
    if m > 0 {
      DigitsGrow(m / 10, n / 10);
    }
  }

  /** The text is as wide as asked for, or as the number itself. */
  lemma PaddedWidth(width: int, index: int)
    requires index > 0
    ensures var text := IntToDecimal(index);
            |Padded(width, index)| == if width > |text| then width else |text|
  {
    DigitsCountDecimal(index);
    hide Digits;
  }

  /** A 32-bit signed number that differs by whole multiples of 2^32. */
  lemma NarrowIsInt32(x: int)
    ensures -0x8000_0000 <= Narrow(x) <= 0x7FFF_FFFF && (Narrow(x) - x) % 0x1_0000_0000 == 0
  {
    var q := x / TWO_TO_THE_32;
    assert x == q * TWO_TO_THE_32 + x % TWO_TO_THE_32;
  }

  lemma {:induction false} PaddingKeepsValue(n: nat, s: bytes)
    requires AllDigits(s)
    ensures DecimalToNat(Zeros(n) + s) == DecimalToNat(s)
    decreases |s|
  {
    var t := Zeros(n) + s;
    if s == [] {
      ZerosAreZero(n);
      assert t == Zeros(n);
    } else {
      PaddingKeepsValue(n, s[..|s| - 1]);
      assert t[..|t| - 1] == Zeros(n) + s[..|s| - 1];
    }
  }

  lemma {:induction false} ZerosAreZero(n: nat)
    ensures DecimalToNat(Zeros(n)) == 0
  {
    if n > 0 {
      ZerosAreZero(n - 1);
      assert Zeros(n)[..n - 1] == Zeros(n - 1);
    }
  }

  /** A padded index can be read back; only a negative one has a sign in it. */
  lemma PaddedRoundTrip(width: int, index: int)
    ensures index >= 0 ==> AllDigits(Padded(width, index)) && DecimalToNat(Padded(width, index)) == index
    ensures index < 0 ==> MINUS in Padded(width, index)
  {
    if index >= 0 {
      NatDecimalRoundTrip(index);
      PaddingKeepsValue(Padding(width, index), NatToDecimal(index));
    } else {
      assert Padded(width, index)[Padding(width, index)] == MINUS;
    }
  }

  lemma PaddedDiffer(width: int, i: int, j: int)
    requires i != j
    ensures Padded(width, i) != Padded(width, j)
  {
    PaddedRoundTrip(width, i);
    PaddedRoundTrip(width, j);
    if i < 0 && j < 0 {
      IntDecimalRoundTrip(i);
      IntDecimalRoundTrip(j);
      var n := Padding(width, i);
      assert Padded(width, i)[n..] == IntToDecimal(i) && Padded(width, j)[n..] == IntToDecimal(j);
    }
  }

  const LOG_FILE_SUFFIX: bytes := [0x2E, 0x6C, 0x6F, 0x67]
  const LOG_FILE_NAME_DELIM: bytes := [0x5F]

  /** Where the log files go: the directory with the base name, and how many files there may be. */
  datatype Place = Place(prefix: bytes, maxFiles: int)

  function FileName(p: Place, index: nat): bytes {
    if index > 0 then
      p.prefix + LOG_FILE_NAME_DELIM + Padded(DigitsOf(Narrow(p.maxFiles - 1)), Narrow(index)) + LOG_FILE_SUFFIX
    else p.prefix + LOG_FILE_SUFFIX
  }

  lemma NamesDiffer(p: Place, i: nat, j: nat)
    ensures FileName(p, i) == FileName(p, j) <==> i == j || (i > 0 && j > 0 && Narrow(i) == Narrow(j))
  {
    hide Padded, Narrow;
    if FileName(p, i) == FileName(p, j) && i > 0 && j > 0 {
      var width := DigitsOf(Narrow(p.maxFiles - 1));
      SameMiddle(p.prefix + LOG_FILE_NAME_DELIM, Padded(width, Narrow(i)), Padded(width, Narrow(j)), LOG_FILE_SUFFIX);
      if Narrow(i) != Narrow(j) {
        PaddedDiffer(width, Narrow(i), Narrow(j));
      }
    }
  }

  /** The names of the old files up to the last but one all have the same length. */
  lemma NamesAreAligned(p: Place, i: nat)
    requires 1 <= i < p.maxFiles <= TWO_TO_THE_31
    ensures |FileName(p, i)| == |FileName(p, 1)|
    ensures |FileName(p, i)| == |p.prefix| + |Ascii("_.log")| + |IntToDecimal(p.maxFiles - 1)|
  {
    var width := DigitsOf(p.maxFiles - 1);
    assert Narrow(i) == i && Narrow(1) == 1 && Narrow(p.maxFiles - 1) == p.maxFiles - 1;
    DigitsGrow(i, p.maxFiles - 1);
    DigitsGrow(1, p.maxFiles - 1);
    DigitsCountDecimal(i);
    DigitsCountDecimal(1);
    DigitsCountDecimal(p.maxFiles - 1);
    PaddedWidth(width, i);
    PaddedWidth(width, 1);
    hide Padded, Digits, Narrow, IntToDecimal;
  }

  /** How the names are spelled. */
  lemma NameSpelling(p: Place, index: nat)
    requires 0 < index < p.maxFiles <= TWO_TO_THE_31
    ensures FileName(p, 0) == p.prefix + Ascii(".log")
    ensures FileName(p, index) == p.prefix + Ascii("_") + Padded(|IntToDecimal(p.maxFiles - 1)|, index) + Ascii(".log")
  {
    assert LOG_FILE_SUFFIX == Ascii(".log") && LOG_FILE_NAME_DELIM == Ascii("_");
    assert Narrow(index) == index && Narrow(p.maxFiles - 1) == p.maxFiles - 1;
    DigitsCountDecimal(p.maxFiles - 1);
    hide Padded, Digits, Narrow;
  }

  /** The places are few enough for all names to differ. */
  predicate Apart(p: Place) {
    p.maxFiles <= TWO_TO_THE_32
  }

  /** All places have different names if and only if there are at most as many as 32 bits can tell apart. */
  lemma NamesDifferIffApart(p: Place)
    ensures (forall i: nat, j: nat :: i < j <= p.maxFiles ==> FileName(p, i) != FileName(p, j)) <==> Apart(p)
  {
    hide FileName;
    if Apart(p) {
      forall i: nat, j: nat | i < j <= p.maxFiles ensures FileName(p, i) != FileName(p, j) {
        NamesDiffer(p, i, j);
      }
    } else {
      NamesDiffer(p, 1, TWO_TO_THE_32 + 1);
      assert FileName(p, 1) == FileName(p, TWO_TO_THE_32 + 1);
    }
  }

  lemma AllNamesDiffer(p: Place)
    requires Apart(p)
    ensures forall i: nat, j: nat :: i <= p.maxFiles && j <= p.maxFiles ==>
              (FileName(p, i) == FileName(p, j) <==> i == j)
  {
    NamesDifferIffApart(p);
    hide FileName;
  }

  lemma SameMiddle(a: bytes, b: bytes, c: bytes, d: bytes)
    requires a + b + d == a + c + d
    ensures b == c
  {
    assert |b| == |c|;
    forall k | 0 <= k < |b| ensures b[k] == c[k] {
      assert (a + b + d)[|a| + k] == (a + c + d)[|a| + k];
    }
  }

  // ----- the files -----

  type Disk = map<bytes, bytes>

  function Get(disk: Disk, name: bytes): Option<bytes> {
    if name in disk then Some(disk[name]) else None
  }

  ghost predicate IsLogName(p: Place, name: bytes) {
    name == FileName(p, 0) || exists i :: 1 <= i <= p.maxFiles && name == FileName(p, i)
  }

  /** Every file but the live one has moved up one place, the oldest is gone, the live one is empty. */
  ghost predicate Shifted(p: Place, before: Disk, after: Disk) {
    (forall i :: 1 <= i <= p.maxFiles ==> Get(after, FileName(p, i)) == Get(before, FileName(p, i - 1))) &&
    Get(after, FileName(p, 0)) == (if p.maxFiles >= 1 then Some([]) else Some(Live(p, before))) &&
    forall name :: !IsLogName(p, name) ==> Get(after, name) == Get(before, name)
  }

  /** What the file at a place holds; a file that does not exist holds nothing. */
  function Held(p: Place, disk: Disk, index: nat): bytes {
    match Get(disk, FileName(p, index))
    case Some(text) => text
    case None => []
  }

  function Live(p: Place, disk: Disk): bytes {
    Held(p, disk, 0)
  }

  /** The files from the one at place `oldest` to the live one, read in that order. */
  function Joined(p: Place, disk: Disk, oldest: nat): bytes {
    Held(p, disk, oldest) + if oldest == 0 then [] else Joined(p, disk, oldest - 1)
  }

  function Oldest(p: Place): nat {
    if p.maxFiles < 0 then 0 else p.maxFiles
  }

  predicate IsSuffix(s: bytes, t: bytes) {
    |s| <= |t| && t[|t| - |s|..] == s
  }

  lemma {:induction false} ShiftedReadsOn(p: Place, before: Disk, after: Disk, k: nat)
    requires Shifted(p, before, after) && 1 <= k <= p.maxFiles
    ensures Joined(p, after, k) == Joined(p, before, k - 1)
  {
    hide FileName;
    if k > 1 {
      ShiftedReadsOn(p, before, after, k - 1);
    } else {
      assert Joined(p, after, 0) == [];
    }
  }

  /** A rotation forgets at most the oldest file. */
  lemma ShiftedForgetsOldest(p: Place, before: Disk, after: Disk)
    requires Shifted(p, before, after)
    ensures Joined(p, before, Oldest(p)) ==
            (if p.maxFiles >= 1 then Held(p, before, p.maxFiles) else []) + Joined(p, after, Oldest(p))
  {
    hide FileName, Shifted;
    if p.maxFiles >= 1 {
      ShiftedReadsOn(p, before, after, p.maxFiles);
    } else {
      ShiftedNowhere(p, before, after);
    }
  }

  lemma ShiftedNowhere(p: Place, before: Disk, after: Disk)
    requires Shifted(p, before, after) && p.maxFiles < 1
    ensures Held(p, after, 0) == Held(p, before, 0)
  {
  }

  /** Only the live file has grown, by the message. */
  ghost predicate Grown(p: Place, before: Disk, after: Disk, message: bytes) {
    after == before[FileName(p, 0) := Live(p, before) + message]
  }

  lemma {:induction false} GrownReadsOn(p: Place, before: Disk, after: Disk, message: bytes, k: nat)
    requires Grown(p, before, after, message)
    ensures Joined(p, after, k) == Joined(p, before, k) + message
  {
    hide FileName, Held;
    GrownHeld(p, before, after, message, k);
    if k == 0 {
      assert Held(p, after, 0) + [] == Held(p, after, 0);
      assert Held(p, before, 0) + [] == Held(p, before, 0);
    } else {
      GrownReadsOn(p, before, after, message, k - 1);
      assert Held(p, before, k) + [] == Held(p, before, k);
      AddLast(Held(p, before, k), Joined(p, before, k - 1), message);
    }
  }

  lemma GrownHeld(p: Place, before: Disk, after: Disk, message: bytes, k: nat)
    requires Grown(p, before, after, message)
    ensures Held(p, after, k) == Held(p, before, k) + if k == 0 then message else []
  {
    hide FileName;
    NamesDiffer(p, k, 0);
    assert Held(p, before, k) + [] == Held(p, before, k);
  }

  lemma AddLast(a: bytes, b: bytes, c: bytes)
    ensures a + (b + c) == a + b + c
  {
  }

  // ----- a log call -----

  /** What one log call does to the files. */
  ghost predicate Sunk(p: Place, before: Disk, after: Disk, message: bytes, rotates: bool) {
    if rotates then exists between :: Shifted(p, before, between) && Grown(p, between, after, message)
    else Grown(p, before, after, message)
  }

  /** Read from the oldest on, the message is added and at most the oldest file is lost, on a rotation. */
  lemma SunkForgetsOldest(p: Place, before: Disk, after: Disk, message: bytes, rotates: bool)
    requires Sunk(p, before, after, message, rotates)
    ensures Joined(p, before, Oldest(p)) + message ==
            (if rotates && p.maxFiles >= 1 then Held(p, before, p.maxFiles) else []) + Joined(p, after, Oldest(p))
  {
    hide FileName, Shifted, Grown, Joined, Held;
    if rotates {
      var between :| Shifted(p, before, between) && Grown(p, between, after, message);
      ShiftedForgetsOldest(p, before, between);
      GrownReadsOn(p, between, after, message, Oldest(p));
      var lost := if p.maxFiles >= 1 then Held(p, before, p.maxFiles) else [];
      assert lost + Joined(p, between, Oldest(p)) + message == lost + (Joined(p, between, Oldest(p)) + message);
    } else {
      GrownReadsOn(p, before, after, message, Oldest(p));
    }
  }

  lemma SunkKeepsSuffix(p: Place, before: Disk, after: Disk, message: bytes, rotates: bool, history: bytes)
    requires Sunk(p, before, after, message, rotates) && IsSuffix(Joined(p, before, Oldest(p)), history)
    ensures IsSuffix(Joined(p, after, Oldest(p)), history + message)
  {
    SunkForgetsOldest(p, before, after, message, rotates);
    SuffixGoesOn(Joined(p, before, Oldest(p)), if rotates && p.maxFiles >= 1 then Held(p, before, p.maxFiles) else [],
      Joined(p, after, Oldest(p)), message, history);
  }

  lemma SuffixGoesOn(text: bytes, lost: bytes, kept: bytes, message: bytes, history: bytes)
    requires IsSuffix(text, history) && text + message == lost + kept
    ensures |kept| <= |text + message| && IsSuffix(kept, history + message)
  {
    var n := |history| - |text|;
    var drop := n + |lost|;
    assert history + message == history[..n] + (text + message);
    assert |history + message| - |kept| == drop;
    forall k | 0 <= k < |kept| ensures (history + message)[drop..][k] == kept[k] {
      assert (history[..n] + (lost + kept))[drop + k] == (lost + kept)[|lost| + k];
    }
  }

  function Flat(messages: seq<bytes>): bytes {
    if messages == [] then [] else Flat(messages[..|messages| - 1]) + messages[|messages| - 1]
  }

  // ----- the shifting loop -----

  /** The files above place i have their new content, the one at i is free, those below are untouched. */
  ghost predicate Halfway(p: Place, was: Disk, now: Disk, i: nat) {
    i <= p.maxFiles &&
    (forall j :: i < j <= p.maxFiles ==> Get(now, FileName(p, j)) == Get(was, FileName(p, j - 1))) &&
    Get(now, FileName(p, i)) == (if i < p.maxFiles then None else Get(was, FileName(p, i))) &&
    (forall j :: 0 <= j < i ==> Get(now, FileName(p, j)) == Get(was, FileName(p, j))) &&
    forall name :: !IsLogName(p, name) ==> Get(now, name) == Get(was, name)
  }

  lemma NothingShifted(p: Place, was: Disk)
    requires p.maxFiles >= 0
    ensures Halfway(p, was, was, p.maxFiles)
  {
  }

  lemma NextNameDiffers(p: Place, i: nat)
    requires i >= 1
    ensures FileName(p, i - 1) != FileName(p, i) && FileName(p, 0) != FileName(p, i)
    ensures i > 1 ==> FileName(p, 0) != FileName(p, i - 1)
  {
    NamesDiffer(p, i - 1, i);
    NamesDiffer(p, 0, i);
    NamesDiffer(p, 0, i - 1);
    hide FileName;
  }

  lemma ShiftOne(p: Place, was: Disk, before: Disk, after: Disk, i: nat)
    requires Apart(p) && Halfway(p, was, before, i) && i > 0
    requires forall f :: Get(after, f) ==
               if f == FileName(p, i) then Get(before, FileName(p, i - 1))
               else if f == FileName(p, i - 1) then None else Get(before, f)
    ensures Halfway(p, was, after, i - 1)
  {
    hide FileName;
    AllNamesDiffer(p);
    assert IsLogName(p, FileName(p, i)) && IsLogName(p, FileName(p, i - 1));
  }

  lemma AllShifted(p: Place, was: Disk, now: Disk, after: Disk)
    requires Apart(p) && FileName(p, 0) in was
    requires if p.maxFiles < 0 then now == was else Halfway(p, was, now, 0)
    requires after == now[FileName(p, 0) := if FileName(p, 0) in now then now[FileName(p, 0)] else []]
    ensures Shifted(p, was, after)
  {
    hide FileName;
    if p.maxFiles >= 0 {
      AllNamesDiffer(p);
    }
  }

  // ----- the sink -----

  /** The directory with the log files. */
  class Directory {
    var disk: Disk

    constructor (found: Disk)
      ensures disk == found
    {
      disk := found;
    }

    method Exists(name: bytes) returns (there: bool)
      ensures there <==> name in disk
    {
      there := name in disk;
    }

    method Remove(name: bytes)
      requires name in disk
      modifies this
      ensures forall f :: Get(disk, f) == if f == name then None else Get(old(disk), f)
    {
      disk := disk - {name};
    }

    method Rename(name: bytes, target: bytes)
      requires name in disk && name != target
      modifies this
      ensures forall f :: Get(disk, f) ==
                if f == name then None else if f == target then Get(old(disk), name) else Get(old(disk), f)
    {
      var text := disk[name];
      disk := disk[target := text] - {name};
    }

    /** Opening for append makes an empty file if there is none. */
    method OpenAppend(name: bytes)
      modifies this
      ensures disk == old(disk)[name := if name in old(disk) then old(disk)[name] else []]
    {
      if name !in disk {
        disk := disk[name := []];
      } else {
        assert disk[name := disk[name]] == disk;
      }
    }

    method Append(name: bytes, text: bytes)
      requires name in disk
      modifies this
      ensures disk == old(disk)[name := old(disk)[name] + text]
    {
      disk := disk[name := disk[name] + text];
    }
  }

  class RotateFileSink {
    const place: Place
    const maxSize: int
    const directory: Directory
    var currentSize: nat

    predicate Opened()
      reads this, directory
    {
      FileName(place, 0) in directory.disk
    }

    /** The counter is the size of the live file. */
    predicate Valid()
      reads this, directory
    {
      Opened() && currentSize == |directory.disk[FileName(place, 0)]|
    }

    constructor (directory: Directory, prefix: bytes, maxSize: int, maxFiles: int)
      modifies directory
      ensures this.directory == directory && place == Place(prefix, maxFiles) && this.maxSize == maxSize
      ensures Valid() && Live(place, directory.disk) == Live(place, old(directory.disk))
      ensures Joined(place, directory.disk, Oldest(place)) == Joined(place, old(directory.disk), Oldest(place))
    {
      this.directory := directory;
      this.maxSize := maxSize;
      place := Place(prefix, maxFiles);
      new;
      ghost var found := directory.disk;
      var name := CalcFileName(0);
      directory.OpenAppend(name);
      currentSize := |directory.disk[name]|;
      assert Live(place, found) + [] == Live(place, found);
      GrownReadsOn(place, found, directory.disk, [], Oldest(place));
      assert Joined(place, found, Oldest(place)) + [] == Joined(place, found, Oldest(place));
    }

    method CalcFileName(index: nat) returns (name: bytes)
      ensures name == FileName(place, index)
    {
      if index > 0 {
        var width := DigitCount(Narrow(place.maxFiles - 1));
        var text := IndexOnDigitCount(width, Narrow(index));
        name := place.prefix + LOG_FILE_NAME_DELIM + text + LOG_FILE_SUFFIX;
      } else {
        name := place.prefix + LOG_FILE_SUFFIX;
      }
    }

    /** rotate: closes the live file, moves every file up one place, and opens a new live file. */
    method Rotate()
      requires Opened()
      modifies directory
      ensures Apart(place) ==> Shifted(place, old(directory.disk), directory.disk)
      ensures Opened()
      ensures Live(place, directory.disk) == if place.maxFiles >= 1 then [] else Live(place, old(directory.disk))
    {
      hide FileName, Halfway, Apart;
      ghost var was := directory.disk;
      if place.maxFiles >= 0 {
        NothingShifted(place, was);
      }
      var i := place.maxFiles;
      while i > 0
        invariant i <= place.maxFiles && if place.maxFiles < 0 then i < 0 && directory.disk == was else i >= 0
        invariant 0 <= i && Apart(place) ==> Halfway(place, was, directory.disk, i)
        invariant Get(directory.disk, FileName(place, 0)) ==
                  if 0 == i < place.maxFiles then None else Get(was, FileName(place, 0))
      {
        var src := CalcFileName(i - 1);
        var target := CalcFileName(i);
        NextNameDiffers(place, i);
        ghost var before := directory.disk;
        var there := directory.Exists(target);
        if there {
          directory.Remove(target);
        }
        there := directory.Exists(src);
        if there {
          directory.Rename(src, target);
        }
        if Apart(place) {
          ShiftOne(place, was, before, directory.disk, i);
        }
        i := i - 1;
      }
      ghost var shifted := directory.disk;
      var name := CalcFileName(0);
      directory.OpenAppend(name);
      if Apart(place) {
        AllShifted(place, was, shifted, directory.disk);
      }
    }

    /**
     sinkIt. With a place for an old file the counter stays right, and the live file is within the
     limit or holds just this message; without one a rotation only sets the counter back.
     */
    method SinkIt(message: bytes)
      requires Opened()
      modifies this, directory
      ensures Opened()
      ensures Apart(place) ==>
                Sunk(place, old(directory.disk), directory.disk, message, old(currentSize) + |message| > maxSize)
      ensures currentSize == if old(currentSize) + |message| > maxSize then |message| else old(currentSize) + |message|
      ensures old(Valid()) ==>
                (Valid() <==> old(currentSize) + |message| <= maxSize || place.maxFiles >= 1 ||
                              Live(place, old(directory.disk)) == [])
      ensures old(Valid()) && Valid() ==>
                |Live(place, directory.disk)| <= maxSize || Live(place, directory.disk) == message
    {
      hide FileName, Shifted;
      ghost var before := directory.disk;
      currentSize := currentSize + |message|;
      if currentSize > maxSize {
        Rotate();
        currentSize := |message|;
      }
      ghost var between := directory.disk;
      var name := CalcFileName(0);
      if |message| > 0 {
        directory.Append(name, message);
      } else {
        assert between[name] + message == between[name];
        assert between[name := between[name]] == between;
      }
      assert Grown(place, between, directory.disk, message);
    }

    /** A run of the sink: what the files hold is the end of everything ever logged. */
    method LogAll(messages: seq<bytes>, ghost history: bytes)
      requires Opened() && IsSuffix(Joined(place, directory.disk, Oldest(place)), history)
      modifies this, directory
      ensures Opened()
      ensures Apart(place) ==> IsSuffix(Joined(place, directory.disk, Oldest(place)), history + Flat(messages))
      ensures old(Valid()) && place.maxFiles >= 1 ==> Valid()
      ensures old(Valid()) && place.maxFiles >= 1 && messages != [] ==>
                |Live(place, directory.disk)| <= maxSize || Live(place, directory.disk) == messages[|messages| - 1]
    {
      hide FileName, Sunk, IsSuffix, Joined, Apart;
      assert history + [] == history;
      for i := 0 to |messages|
        invariant Opened()
        invariant Apart(place) ==> IsSuffix(Joined(place, directory.disk, Oldest(place)), history + Flat(messages[..i]))
        invariant old(Valid()) && place.maxFiles >= 1 ==> Valid()
        invariant old(Valid()) && place.maxFiles >= 1 && i > 0 ==>
                    |Live(place, directory.disk)| <= maxSize || Live(place, directory.disk) == messages[i - 1]
      {
        ghost var before := directory.disk;
        ghost var rotates := currentSize + |messages[i]| > maxSize;
        SinkIt(messages[i]);
        if Apart(place) {
          SunkKeepsSuffix(place, before, directory.disk, messages[i], rotates, history + Flat(messages[..i]));
        }
        assert messages[..i + 1][..i] == messages[..i];
        assert history + Flat(messages[..i]) + messages[i] == history + Flat(messages[..i + 1]);
      }
      assert messages[..|messages|] == messages;
    }
  }

  // ----- a sink without a place for an old file -----

  /** From an empty directory: two messages that are too large together put the counter wrong. */
  method CounterGoesWrong(prefix: bytes, maxSize: int, maxFiles: int, first: bytes, second: bytes)
    returns (sink: RotateFileSink)
    requires maxFiles < 1 && first != [] && |first| <= maxSize < |first| + |second|
    ensures fresh(sink) && !sink.Valid() && sink.currentSize == |second|
  {
    hide FileName, Sunk, Shifted, Grown;
    var directory := new Directory(map[]);
    sink := new RotateFileSink(directory, prefix, maxSize, maxFiles);
    sink.SinkIt(first);
    sink.SinkIt(second);
  }
}
