/**
  The call-session log: the first half of the byte budget goes to a first file that is kept for ever,
  the rest is a ring of smaller files of which the oldest is deleted at every rotation.
 */
module FileRotatingStream {
  import opened Bytes

  const ROTATING_LOG_FILE_DEFAULT_SIZE: nat := 1024 * 1024

  // ---------------------------------------------------------------------------------------------
  // Sizing
  // ---------------------------------------------------------------------------------------------

  function NumRotatingLogFiles(total: nat): nat {
    Max(2, total / 2 / ROTATING_LOG_FILE_DEFAULT_SIZE)
  }

  function RotatingLogSize(total: nat): nat {
    if NumRotatingLogFiles(total) > 2 then ROTATING_LOG_FILE_DEFAULT_SIZE else total / 4
  }

  function FirstFileSize(total: nat): nat { total / 2 }

  /** The first file and all rotating files, each filled to the brim, stay within the budget. */
  lemma SizesFitBudget(total: nat)
    requires total >= 4
    ensures RotatingLogSize(total) > 0 && FirstFileSize(total) > 0 && NumRotatingLogFiles(total) > 1
    ensures FirstFileSize(total) + NumRotatingLogFiles(total) * RotatingLogSize(total) <= total
  {
  }

  /** And they use it up, but for three bytes or, from 6 MiB on, for one file. */
  lemma SizesUseBudget(total: nat)
    requires total >= 4
    ensures var used := FirstFileSize(total) + NumRotatingLogFiles(total) * RotatingLogSize(total);
      used >= total - if total < 6 * 1048576 then 3 else 1048576
    ensures FirstFileSize(total) == total / 2
    ensures (NumRotatingLogFiles(total) - 1) * RotatingLogSize(total) >= EndKept(total)
  {
    if total >= 6 * 1048576 {
      var half, files := total / 2, NumRotatingLogFiles(total);
      assert files * 1048576 + half % 1048576 == half;
    }
  }

  /** How many bytes at the end of a log are always kept, in terms of the budget: a quarter of it, or
      from 6 MiB on half of it but for two files. */
  function EndKept(total: nat): nat {
    if total < 6 * 1048576 then total / 4 else total / 2 - 2 * 1048576 + 1
  }

  // ---------------------------------------------------------------------------------------------
  // The writer
  // ---------------------------------------------------------------------------------------------

  type Directory = map<nat, seq<byte>>

  function At(files: Directory, i: int): Option<seq<byte>> {
    if i >= 0 && i in files then Some(files[i]) else None
  }

  /** The renaming of file `i - 1` to file `i`, if there is such a file. */
  function MoveUp(files: Directory, i: nat): Directory
    requires i > 0
  {
    if i - 1 in files then files[i := files[i - 1]] - {i - 1} else files
  }

  /** What is found at index `k` once the file at index `top` is gone and the files from `i` up to it
      have moved up by one. */
  function ShiftedAt(before: Directory, i: nat, top: nat, k: nat): Option<seq<byte>> {
    if k < i || k > top then At(before, k) else if k == i then None else At(before, k - 1)
  }

  ghost predicate Shifted(before: Directory, after: Directory, i: nat, top: nat) {
    forall k: nat :: At(after, k) == ShiftedAt(before, i, top, k)
  }

  lemma ShiftOne(before: Directory, after: Directory, i: nat, top: nat)
    requires 0 < i <= top && Shifted(before, after, i, top)
    ensures Shifted(before, MoveUp(after, i), i - 1, top)
  {
    forall k: nat
      ensures At(MoveUp(after, i), k) == ShiftedAt(before, i - 1, top, k)
    {
      assert At(after, k) == ShiftedAt(before, i, top, k);
      assert At(after, i - 1) == ShiftedAt(before, i, top, i - 1);
    }
  }

  /** Where file `j` ends in the log: where the next newer one starts. */
  function EndOf(length: nat, starts: seq<nat>, j: nat): nat
    requires j <= |starts|
  {
    if j == 0 then length else starts[j - 1]
  }

  /** The rotating files of a log of the given length are consecutive stretches of it, newest first:
      all but the newest have `size` bytes, there are at most `rotating`, and unless there are that
      many they reach back to the end of the first file. */
  ghost predicate Stretches(length: nat, starts: seq<nat>, first: nat, size: nat, rotating: nat) {
    && 0 < |starts| <= rotating
    && first <= starts[|starts| - 1]
    && starts[0] <= length
    && (forall j | 0 < j < |starts| :: starts[j - 1] == starts[j] + size)
    && (|starts| < rotating ==> starts[|starts| - 1] == first)
  }

  lemma {:induction false} StretchOrder(length: nat, starts: seq<nat>, first: nat, size: nat, rotating: nat, j: nat)
    requires Stretches(length, starts, first, size, rotating) && j < |starts|
    ensures first <= starts[j] <= EndOf(length, starts, j) <= length
    ensures starts[j] == starts[|starts| - 1] + (|starts| - 1 - j) * size
    decreases |starts| - j
  {
    if j == |starts| - 1 {
      StretchOrderUp(length, starts, first, size, rotating, j);
    } else {
      StretchOrder(length, starts, first, size, rotating, j + 1);
      StretchOrderUp(length, starts, first, size, rotating, j);
      assert starts[j] == starts[j + 1] + size;
    }
  }

  lemma {:induction false} StretchOrderUp(length: nat, starts: seq<nat>, first: nat, size: nat, rotating: nat, j: nat)
    requires Stretches(length, starts, first, size, rotating) && j < |starts|
    ensures starts[j] <= EndOf(length, starts, j) <= length
    decreases j
  {
    if j > 0 { StretchOrderUp(length, starts, first, size, rotating, j - 1); }
  }

  /** What the file at index `k` holds: a stretch, or the first `first` bytes right behind them. */
  function FileAt(log: seq<byte>, starts: seq<nat>, first: nat, k: nat): Option<seq<byte>> {
    if k < |starts| && starts[k] <= EndOf(|log|, starts, k) <= |log| then Some(log[starts[k]..EndOf(|log|, starts, k)])
    else if k == |starts| && first <= |log| then Some(log[..first])
    else None
  }

  ghost predicate Layout(files: Directory, log: seq<byte>, starts: seq<nat>, first: nat, size: nat, rotating: nat) {
    && Stretches(|log|, starts, first, size, rotating)
    && forall k: nat :: At(files, k) == FileAt(log, starts, first, k)
  }

  lemma LayoutAppend(files: Directory, log: seq<byte>, starts: seq<nat>, first: nat, size: nat, rotating: nat,
                     data: seq<byte>)
    requires Layout(files, log, starts, first, size, rotating)
    ensures At(files, 0) == Some(log[starts[0]..])
    ensures Layout(files[0 := files[0] + data], log + data, starts, first, size, rotating)
  {
    assert At(files, 0) == FileAt(log, starts, first, 0);
    var files', log' := files[0 := files[0] + data], log + data;
    StretchOrder(|log|, starts, first, size, rotating, 0);
    assert log[starts[0]..|log|] == log[starts[0]..];
    forall k: nat
      ensures At(files', k) == FileAt(log', starts, first, k)
    {
      if k == 0 {
        assert log[starts[0]..] + data == log'[starts[0]..|log'|];
      } else {
        assert At(files', k) == At(files, k) == FileAt(log, starts, first, k);
        if k < |starts| {
          StretchOrder(|log|, starts, first, size, rotating, k);
          assert log'[starts[k]..starts[k - 1]] == log[starts[k]..starts[k - 1]];
        } else {
          assert log'[..first] == log[..first];
        }
      }
    }
  }

  /** The starts after a rotation: a new, empty file, and the oldest one forgotten if there are
      `rotating` already. */
  function RotatedStarts(length: nat, starts: seq<nat>, rotating: nat): seq<nat>
    requires rotating > 0
  {
    [length] + if |starts| < rotating then starts else starts[..rotating - 1]
  }

  lemma StretchesRotate(length: nat, starts: seq<nat>, first: nat, size: nat, rotating: nat)
    requires Stretches(length, starts, first, size, rotating) && rotating > 1
    requires length == starts[0] + size
    ensures Stretches(length, RotatedStarts(length, starts, rotating), first, size, rotating)
  {
    var starts' := RotatedStarts(length, starts, rotating);
    forall j | 0 < j < |starts'| ensures starts'[j - 1] == starts'[j] + size {
      if j > 1 { assert starts'[j - 1] == starts[j - 2]; }
    }
    StretchOrder(length, starts, first, size, rotating, |starts'| - 2);
  }

  lemma LayoutRotate(files: Directory, log: seq<byte>, starts: seq<nat>, first: nat, size: nat, rotating: nat,
                     files': Directory)
    requires Layout(files, log, starts, first, size, rotating) && rotating > 1
    requires |log| == starts[0] + size
    requires At(files', 0) == Some([])
    requires forall k: nat | k > 0 ::
      At(files', k) == ShiftedAt(files, 0, if |starts| < rotating then rotating else rotating - 1, k)
    ensures Layout(files', log, RotatedStarts(|log|, starts, rotating), first, size, rotating)
  {
    StretchesRotate(|log|, starts, first, size, rotating);
    var starts' := RotatedStarts(|log|, starts, rotating);
    forall k: nat
      ensures At(files', k) == FileAt(log, starts', first, k)
    {
      if k == 0 {
        assert log[|log|..|log|] == [];
      } else {
        assert At(files, k) == FileAt(log, starts, first, k);
        assert At(files, k - 1) == FileAt(log, starts, first, k - 1);
        if k < |starts'| {
          assert starts'[k] == starts[k - 1] && EndOf(|log|, starts', k) == EndOf(|log|, starts, k - 1);
        }
      }
    }
  }

  lemma LayoutFirst(files: Directory, log: seq<byte>, size: nat, rotating: nat, files': Directory)
    requires files == map[0 := log] && rotating > 1
    requires At(files', 0) == Some([])
    requires forall k: nat | k > 0 :: At(files', k) == ShiftedAt(files, 0, rotating, k)
    ensures Layout(files', log, [|log|], |log|, size, rotating)
  {
    assert log[|log|..] == [] && log[..|log|] == log;
    forall k: nat
      ensures At(files', k) == FileAt(log, [|log|], |log|, k)
    {
      if k > 0 { assert At(files', k) == ShiftedAt(files, 0, rotating, k); }
    }
  }

  /** A rotation of any kind, before which the current file was full. */
  lemma RotationKeepsLayout(files: Directory, log: seq<byte>, starts: seq<nat>, first: nat, size: nat, rotating: nat,
                            numRotations: nat, files': Directory)
    requires rotating > 1 && |starts| == Min(numRotations, rotating)
    requires numRotations == 0 ==> files == map[0 := log] && |log| == first
    requires numRotations > 0 ==> Layout(files, log, starts, first, size, rotating) && |log| == starts[0] + size
    requires At(files', 0) == Some([])
    requires forall k: nat | k > 0 ::
      At(files', k) == ShiftedAt(files, 0, if numRotations < rotating then rotating else rotating - 1, k)
    ensures Layout(files', log, RotatedStarts(|log|, starts, rotating), first, size, rotating)
    ensures |RotatedStarts(|log|, starts, rotating)| == Min(numRotations + 1, rotating)
  {
    if numRotations == 0 {
      LayoutFirst(files, log, size, rotating, files');
      assert RotatedStarts(|log|, starts, rotating) == [|log|];
    } else {
      LayoutRotate(files, log, starts, first, size, rotating, files');
    }
  }

  // ---------------------------------------------------------------------------------------------
  // What is kept
  // ---------------------------------------------------------------------------------------------

  /** The contents of files `k`, ..., 1, 0 in this order. */
  function OldestFirst(files: Directory, k: int): seq<byte>
    requires forall i | 0 <= i <= k :: i in files
    decreases k + 1
  {
    if k < 0 then [] else files[k] + OldestFirst(files, k - 1)
  }

  lemma {:induction false} StretchesRead(files: Directory, log: seq<byte>, starts: seq<nat>, first: nat, size: nat,
                                         rotating: nat, k: nat)
    requires Layout(files, log, starts, first, size, rotating) && k < |starts|
    ensures forall i | 0 <= i <= k :: i in files
    ensures starts[k] <= |log| && OldestFirst(files, k) == log[starts[k]..]
    decreases k
  {
    StretchOrder(|log|, starts, first, size, rotating, k);
    assert At(files, k) == FileAt(log, starts, first, k);
    if k == 0 {
      assert OldestFirst(files, -1) == [];
      assert log[starts[0]..|log|] == log[starts[0]..];
    } else {
      StretchesRead(files, log, starts, first, size, rotating, k - 1);
      assert log[starts[k]..starts[k - 1]] + log[starts[k - 1]..] == log[starts[k]..];
    }
  }

  lemma CurrentFile(files: Directory, log: seq<byte>, starts: seq<nat>, first: nat, size: nat, rotating: nat)
    requires Layout(files, log, starts, first, size, rotating)
    ensures starts != [] && 0 in files && |log| == starts[0] + |files[0]|
  {
    assert At(files, 0) == FileAt(log, starts, first, 0);
  }

  lemma TailBound(full: nat, more: nat, size: nat, current: nat)
    requires current < size
    ensures full * size + current < (full + 1 + more) * size
  {
    assert more * size >= 0;
  }

  /** What a directory keeps of a log whose current file is not full: the first bytes and a contiguous
      end, which is everything until all rotating files are in use. */
  lemma LayoutKeeps(files: Directory, log: seq<byte>, starts: seq<nat>, first: nat, size: nat, rotating: nat, tail: nat)
    requires Layout(files, log, starts, first, size, rotating)
    requires 0 in files && |files[0]| < size && tail == |log| - starts[|starts| - 1]
    ensures first <= |log| && forall i | i in files :: i <= |starts|
    ensures |log| < first + (rotating - 1) * size ==> log[..first] + log[|log| - tail..] == log
    ensures |log| >= first + (rotating - 1) * size ==> (rotating - 1) * size <= tail < rotating * size
    ensures tail < rotating * size
  {
    CurrentFile(files, log, starts, first, size, rotating);
    LayoutRead(files, log, starts, first, size, rotating);
    var full, current := |starts| - 1, |log| - starts[0];
    forall i | i in files ensures i <= |starts| {
      assert At(files, i) == FileAt(log, starts, first, i);
    }
    TailBound(full, rotating - 1 - full, size, current);
    if |starts| < rotating {
      TailBound(full, rotating - 2 - full, size, current);
      assert log[..first] + log[first..] == log;
    }
  }

  /** Reading the directory oldest first gives the start and the end of the log. */
  lemma LayoutRead(files: Directory, log: seq<byte>, starts: seq<nat>, first: nat, size: nat, rotating: nat)
    requires Layout(files, log, starts, first, size, rotating)
    ensures forall i | 0 <= i <= |starts| :: i in files
    ensures first <= starts[|starts| - 1] <= |log|
    ensures OldestFirst(files, |starts|) == log[..first] + log[starts[|starts| - 1]..]
    ensures |log| - starts[|starts| - 1] == (|starts| - 1) * size + (|log| - starts[0])
  {
    StretchesRead(files, log, starts, first, size, rotating, |starts| - 1);
    StretchOrder(|log|, starts, first, size, rotating, 0);
    StretchOrder(|log|, starts, first, size, rotating, |starts| - 1);
    assert At(files, |starts|) == FileAt(log, starts, first, |starts|);
  }

  /** The start of a log and an end of it, at least `n` bytes or the whole log, begin and end like it. */
  lemma StartAndEnd(log: seq<byte>, first: nat, tail: nat, n: nat, all: nat)
    requires first <= |log| && tail <= |log| && n <= |log| && n <= all
    requires tail < all ==> log[..first] + log[|log| - tail..] == log
    ensures var kept := log[..first] + log[|log| - tail..];
      log[..first] <= kept && n <= |kept| && kept[|kept| - n..] == log[|log| - n..]
  {
    if tail >= all {
      var kept := log[..first] + log[|log| - tail..];
      assert kept[|kept| - n..] == log[|log| - n..];
    }
  }

  class CallSessionLog {
    const maxTotalLogSize: nat
    const numFiles: nat
    var maxFileSize: nat
    var rotationIndex: nat
    var currentBytesWritten: nat
    var numRotations: nat
    var isOpen: bool
    /** The directory: the contents of the file named after each index. */
    var files: Directory

    /** Everything the stream has accepted. */
    ghost var log: seq<byte>
    /** `starts[j]` is the position in the log of the first byte of file `j`, newest file first; the
        first file of the session is not counted. */
    ghost var starts: seq<nat>

    constructor (total: nat)
      requires total >= 4
      ensures maxTotalLogSize == total && !isOpen && log == [] && Sized()
    {
      maxTotalLogSize := total;
      numFiles := NumRotatingLogFiles(total) + 1;
      maxFileSize := FirstFileSize(total);
      rotationIndex := NumRotatingLogFiles(total);
      currentBytesWritten, numRotations, isOpen, files := 0, 0, false, map[];
      log, starts := [], [];
    }

    function First(): nat { FirstFileSize(maxTotalLogSize) }

    function Rotating(): nat { NumRotatingLogFiles(maxTotalLogSize) }

    function Size(): nat { RotatingLogSize(maxTotalLogSize) }

    /** The limits in force after `numRotations` rotations. */
    ghost predicate Sized()
      reads this
    {
      && maxTotalLogSize >= 4
      && numFiles == Rotating() + 1
      && maxFileSize == (if numRotations == 0 then First() else Size())
      && rotationIndex == (if numRotations < Rotating() then Rotating() else Rotating() - 1)
    }

    ghost predicate Valid()
      reads this
    {
      Holds() && currentBytesWritten < maxFileSize
    }

    /** The directory holds the log; the current file may be full. */
    ghost predicate Holds()
      reads this
    {
      && Sized()
      && isOpen
      && 0 in files && currentBytesWritten == |files[0]| <= maxFileSize
      && |starts| == Min(numRotations, Rotating())
      && (numRotations == 0 ==> files == map[0 := log])
      && (numRotations > 0 ==> Layout(files, log, starts, First(), Size(), Rotating()))
    }

    /** Starts a session: files of an earlier session are deleted. */
    method Open()
      requires Sized() && !isOpen && numRotations == 0 && currentBytesWritten == 0 && log == [] && starts == []
      modifies this
      ensures Valid() && log == [] && numRotations == 0
    {
      SizesFitBudget(maxTotalLogSize);
      files := map[];
      OpenCurrentFile();
    }

    method OpenCurrentFile()
      modifies this`files, this`isOpen, this`currentBytesWritten
      ensures isOpen && currentBytesWritten == (if old(isOpen) then 0 else old(currentBytesWritten))
      ensures files == old(files)[0 := []]
    {
      CloseCurrentFile();
      files := files[0 := []];
      isOpen := true;
    }

    method CloseCurrentFile()
      modifies this`isOpen, this`currentBytesWritten
      ensures !isOpen && currentBytesWritten == (if old(isOpen) then 0 else old(currentBytesWritten))
    {
      if isOpen {
        currentBytesWritten := 0;
        isOpen := false;
      }
    }

    method RotateFiles()
      requires Sized()
      modifies this`files, this`isOpen, this`currentBytesWritten, this`numRotations, this`maxFileSize, this`rotationIndex
      ensures isOpen && currentBytesWritten == (if old(isOpen) then 0 else old(currentBytesWritten))
      ensures At(files, 0) == Some([])
      ensures forall k: nat | k > 0 :: At(files, k) == ShiftedAt(old(files), 0, old(rotationIndex), k)
      ensures Sized() && numRotations == old(numRotations) + 1
    {
      CloseCurrentFile();
      files := files - {rotationIndex};
      var i := rotationIndex;
      while i > 0
        invariant 0 <= i <= rotationIndex
        invariant Shifted(old(files), files, i, rotationIndex)
        invariant currentBytesWritten == (if old(isOpen) then 0 else old(currentBytesWritten))
        invariant numRotations == old(numRotations) && maxFileSize == old(maxFileSize) && rotationIndex == old(rotationIndex)
        invariant !isOpen
      {
        ShiftOne(old(files), files, i, rotationIndex);
        files := MoveUp(files, i);
        i := i - 1;
      }
      ghost var moved := files;
      OpenCurrentFile();
      OnRotation();
      assert forall k: nat | k > 0 :: At(files, k) == At(moved, k);
    }

    /** Called after every rotation: the limits become those for one rotation more. */
    method OnRotation()
      requires Sized()
      modifies this`numRotations, this`maxFileSize, this`rotationIndex
      ensures Sized() && numRotations == old(numRotations) + 1
    {
      numRotations := numRotations + 1;
      if numRotations == 1 {
        maxFileSize := Size();
      } else if numRotations == numFiles - 1 {
        rotationIndex := rotationIndex - 1;
      }
    }

    /** Appends as much as fits in the current file, and rotates when the file is full. */
    method Write(data: seq<byte>) returns (ok: bool, written: nat)
      requires isOpen ==> Valid()
      modifies this
      ensures ok <==> old(isOpen)
      ensures !ok ==> written == 0 && log == old(log) && files == old(files) && !isOpen
      ensures ok ==> Valid()
      ensures ok ==> written == Min(|data|, old(maxFileSize - currentBytesWritten))
      ensures ok ==> log == old(log) + data[..written]
    {
      if !isOpen {
        return false, 0;
      }
      hide CallSessionLog.Holds;
      ok, written := true, Min(|data|, maxFileSize - currentBytesWritten);
      Append(data[..written]);
      if currentBytesWritten >= maxFileSize {
        Rotate();
      }
    }

    method Append(data: seq<byte>)
      requires Holds() && currentBytesWritten + |data| <= maxFileSize
      modifies this`files, this`log, this`currentBytesWritten
      ensures Holds() && log == old(log) + data && currentBytesWritten == old(currentBytesWritten) + |data|
    {
      hide Layout, FirstFileSize, NumRotatingLogFiles, RotatingLogSize;
      if numRotations > 0 {
        LayoutAppend(files, log, starts, First(), Size(), Rotating(), data);
      }
      files := files[0 := files[0] + data];
      log := log + data;
      currentBytesWritten := currentBytesWritten + |data|;
    }

    method Rotate()
      requires Holds() && currentBytesWritten == maxFileSize
      modifies this
      ensures Valid() && log == old(log)
    {
      hide Layout, FirstFileSize, NumRotatingLogFiles, RotatingLogSize, ShiftedAt;
      ghost var full, before := files, numRotations;
      SizesFitBudget(maxTotalLogSize);
      if numRotations > 0 { CurrentFile(files, log, starts, First(), Size(), Rotating()); }
      RotateFiles();
      RotationKeepsLayout(full, log, starts, First(), Size(), Rotating(), before, files);
      starts := RotatedStarts(|log|, starts, Rotating());
      assert At(files, 0) == Some([]);
    }

    /** How many bytes at the end of the log are on disk, the first file not counted. */
    ghost function Tail(): (n: nat)
      requires Valid()
      reads this
      ensures n <= |log|
    {
      if numRotations == 0 then 0
      else LayoutRead(files, log, starts, First(), Size(), Rotating()); |log| - starts[|starts| - 1]
    }

    /** The part of the log that is kept: the first half of the budget, and the end. */
    ghost function Kept(): seq<byte>
      requires Valid()
      reads this
    {
      log[..Min(First(), |log|)] + log[|log| - Tail()..]
    }

    /** The index of the oldest file. */
    ghost function Oldest(): nat
      reads this
    {
      |starts|
    }

    /** In terms of the budget: what is on disk begins with the first half of the budget and ends with the
        last bytes of the log, as many as `EndKept` says; a log shorter than both is there completely. */
    lemma KeepsShareOfBudget(n: nat)
      requires Valid() && n <= |log| && n <= EndKept(maxTotalLogSize)
      ensures forall i | 0 <= i <= Oldest() :: i in files
      ensures var kept := OldestFirst(files, Oldest());
        && log[..Min(|log|, maxTotalLogSize / 2)] <= kept
        && n <= |kept| && kept[|kept| - n..] == log[|log| - n..]
        && (|log| < maxTotalLogSize / 2 + EndKept(maxTotalLogSize) ==> kept == log)
    {
      hide CallSessionLog.Holds, CallSessionLog.Tail, FirstFileSize, NumRotatingLogFiles, RotatingLogSize, EndKept, OldestFirst;
      KeepsStartAndEnd();
      SizesUseBudget(maxTotalLogSize);
      var rest := (Rotating() - 1) * Size();
      assert |log| < First() + rest ==> Kept() == log;
      assert |log| >= First() + rest ==> rest <= Tail();
      StartAndEnd(log, Min(First(), |log|), Tail(), n, rest);
    }

    /** The files read oldest first are the first half of the budget and then a contiguous end of the
        log. Nothing is missing until all rotating files are in use; from then on the end has
        between (K-1)S and KS-1 bytes. The bytes on disk never exceed the budget. */
    lemma KeepsStartAndEnd()
      requires Valid()
      ensures forall i | 0 <= i <= Oldest() :: i in files
      ensures forall i | i in files :: i <= Oldest()
      ensures OldestFirst(files, Oldest()) == Kept()
      ensures |log| < First() + (Rotating() - 1) * Size() ==> Kept() == log
      ensures |log| >= First() + (Rotating() - 1) * Size() ==> (Rotating() - 1) * Size() <= Tail() < Rotating() * Size()
      ensures |OldestFirst(files, Oldest())| <= maxTotalLogSize && maxTotalLogSize >= 4
    {
      hide Layout, FirstFileSize, NumRotatingLogFiles, RotatingLogSize;
      SizesFitBudget(maxTotalLogSize);
      if numRotations == 0 {
        assert (Rotating() - 1) * Size() >= 0;
        assert OldestFirst(files, -1) == [];
        assert log[..|log|] == log && log[|log|..] == [];
        assert log + [] == log;
      } else {
        LayoutRead(files, log, starts, First(), Size(), Rotating());
        LayoutKeeps(files, log, starts, First(), Size(), Rotating(), Tail());
      }
    }
  }

  // ---------------------------------------------------------------------------------------------
  // The reader
  // ---------------------------------------------------------------------------------------------

  function Digit(d: nat): char
    requires d < 10
  {
    '0' + d as char
  }

  function Digits(n: nat): nat {
    if n < 10 then 1 else 1 + Digits(n / 10)
  }

  function Power10(n: nat): nat {
    if n == 0 then 1 else 10 * Power10(n - 1)
  }

  /** `i` in decimal, padded with zeros to `width` digits. */
  function Padded(i: nat, width: nat): string {
    if width == 0 then [] else Padded(i / 10, width - 1) + [Digit(i % 10)]
  }

  function FileName(prefix: string, i: nat, numFiles: nat): string
    requires numFiles > 0
  {
    prefix + "_" + Padded(i, Digits(numFiles - 1))
  }

  /** The order of `std::string`. */
  predicate Less(a: string, b: string) {
    b != [] && (a == [] || a[0] < b[0] || (a[0] == b[0] && Less(a[1..], b[1..])))
  }

  lemma {:induction false} LessAsymmetric(a: string, b: string)
    requires Less(a, b)
    ensures !Less(b, a)
    decreases |a|
  {
    if a != [] && a[0] == b[0] { LessAsymmetric(a[1..], b[1..]); }
  }

  lemma {:induction false} LessSamePrefix(p: string, a: string, b: string)
    ensures Less(p + a, p + b) <==> Less(a, b)
    decreases |p|
  {
    if p == [] {
      assert p + a == a && p + b == b;
    } else {
      LessSamePrefix(p[1..], a, b);
      assert (p + a)[1..] == p[1..] + a && (p + b)[1..] == p[1..] + b;
    }
  }

  lemma {:induction false} LessExtended(a: string, b: string, x: string, y: string)
    requires |a| == |b| && Less(a, b)
    ensures Less(a + x, b + y)
    decreases |a|
  {
    if a[0] == b[0] {
      LessExtended(a[1..], b[1..], x, y);
      assert (a + x)[1..] == a[1..] + x && (b + y)[1..] == b[1..] + y;
    }
  }

  lemma {:induction false} PaddedLength(i: nat, width: nat)
    ensures |Padded(i, width)| == width
    decreases width
  {
    if width > 0 { PaddedLength(i / 10, width - 1); }
  }

  /** The decimal digit of 10^k. */
  function DigitOf(i: nat, k: nat): (d: nat)
    ensures d < 10
  {
    if k == 0 then i % 10 else DigitOf(i / 10, k - 1)
  }

  /** The decimal digits, the ones last. */
  lemma {:induction false} PaddedDigit(i: nat, width: nat, k: nat)
    requires k < width
    ensures |Padded(i, width)| == width && Padded(i, width)[width - 1 - k] == '0' + DigitOf(i, k) as char
    decreases width
  {
    PaddedLength(i, width);
    PaddedLength(i / 10, width - 1);
    if k > 0 { PaddedDigit(i / 10, width - 1, k - 1); }
  }

  lemma {:induction false} PaddedOrder(i: nat, j: nat, width: nat)
    requires i < j < Power10(width)
    ensures Less(Padded(i, width), Padded(j, width))
    decreases width
  {
    var a, b := Padded(i / 10, width - 1), Padded(j / 10, width - 1);
    PaddedLength(i / 10, width - 1);
    PaddedLength(j / 10, width - 1);
    if i / 10 < j / 10 {
      PaddedOrder(i / 10, j / 10, width - 1);
      LessExtended(a, b, [Digit(i % 10)], [Digit(j % 10)]);
    } else {
      LessSamePrefix(a, [Digit(i % 10)], [Digit(j % 10)]);
    }
  }

  lemma {:induction false} DigitsSuffice(n: nat)
    ensures n < Power10(Digits(n))
    decreases n
  {
    if n >= 10 { DigitsSuffice(n / 10); }
  }

  /** Thanks to the padding, the order of the names is the order of the indices. */
  lemma NameOrder(prefix: string, i: nat, j: nat, numFiles: nat)
    requires i < numFiles && j < numFiles
    ensures Less(FileName(prefix, i, numFiles), FileName(prefix, j, numFiles)) <==> i < j
  {
    var w := Digits(numFiles - 1);
    DigitsSuffice(numFiles - 1);
    LessSamePrefix(prefix + "_", Padded(i, w), Padded(j, w));
    LessSamePrefix(prefix + "_", Padded(j, w), Padded(i, w));
    if i < j {
      PaddedOrder(i, j, w);
    } else if Less(Padded(i, w), Padded(j, w)) {
      LessAsymmetric(Padded(i, w), Padded(j, w));
      if j < i { PaddedOrder(j, i, w); }
    }
  }

  /** As many digits as the largest index needs. */
  lemma NameExample()
    ensures FileName("log", 7, 10) == "log_7" && FileName("log", 7, 11) == "log_07" && FileName("log", 42, 101) == "log_042"
  {
    assert Padded(4, 2) == "04" && Padded(0, 1) == "0";
  }

  ghost predicate IsNameBelow(name: string, prefix: string, numFiles: nat, count: nat)
    requires numFiles > 0
  {
    exists i: nat :: i < count && name == FileName(prefix, i, numFiles)
  }

  ghost predicate IsNameIn(name: string, prefix: string, numFiles: nat, files: Directory)
    requires numFiles > 0
  {
    exists i: nat :: i in files && name == FileName(prefix, i, numFiles)
  }

  /** The names of files 0 to `count - 1`, sorted with `std::greater`. */
  ghost predicate SortedNames(names: seq<string>, prefix: string, numFiles: nat, count: nat)
    requires numFiles > 0
  {
    && (forall p, q | 0 <= p < q < |names| :: Less(names[q], names[p]))
    && (forall p | 0 <= p < |names| :: IsNameBelow(names[p], prefix, numFiles, count))
    && (forall i: nat | i < count :: FileName(prefix, i, numFiles) in names)
  }

  /** The names of the files in the directory, sorted with `std::greater`. */
  ghost predicate SortedListing(names: seq<string>, prefix: string, numFiles: nat, files: Directory)
    requires numFiles > 0
  {
    && (forall p, q | 0 <= p < q < |names| :: Less(names[q], names[p]))
    && (forall p | 0 <= p < |names| :: IsNameIn(names[p], prefix, numFiles, files))
    && (forall i: nat | i in files :: FileName(prefix, i, numFiles) in names)
  }

  /** The contents of the listed files, one after the other. */
  function Contents(names: seq<string>, disk: map<string, seq<byte>>): seq<byte>
    requires forall p | 0 <= p < |names| :: names[p] in disk
  {
    if names == [] then [] else disk[names[0]] + Contents(names[1..], disk)
  }

  ghost predicate OnDisk(disk: map<string, seq<byte>>, prefix: string, numFiles: nat, files: Directory)
    requires numFiles > 0
  {
    forall i | i in files :: FileName(prefix, i, numFiles) in disk && disk[FileName(prefix, i, numFiles)] == files[i]
  }

  /** A sorted list of the names of files 0 to `k` starts with file `k`, and the rest is one of files
      0 to `k - 1`. */
  lemma NamesHead(names: seq<string>, prefix: string, numFiles: nat, k: nat)
    requires k < numFiles && SortedNames(names, prefix, numFiles, k + 1)
    ensures names != [] && names[0] == FileName(prefix, k, numFiles)
    ensures SortedNames(names[1..], prefix, numFiles, k)
  {
    assert FileName(prefix, k, numFiles) in names;
    var p :| 0 <= p < |names| && names[p] == FileName(prefix, k, numFiles);
    assert IsNameBelow(names[0], prefix, numFiles, k + 1);
    var top: nat :| top < k + 1 && names[0] == FileName(prefix, top, numFiles);
    NameOrder(prefix, top, k, numFiles);
    NameOrder(prefix, k, top, numFiles);
    forall q | 0 <= q < |names[1..]|
      ensures IsNameBelow(names[1..][q], prefix, numFiles, k)
    {
      assert IsNameBelow(names[q + 1], prefix, numFiles, k + 1);
      var i: nat :| i < k + 1 && names[q + 1] == FileName(prefix, i, numFiles);
      assert Less(names[q + 1], names[0]);
      NameOrder(prefix, i, k, numFiles);
    }
    forall i: nat | i < k
      ensures FileName(prefix, i, numFiles) in names[1..]
    {
      var q :| 0 <= q < |names| && names[q] == FileName(prefix, i, numFiles);
      NameOrder(prefix, i, k, numFiles);
      NameOrder(prefix, k, k, numFiles);
      assert q > 0 && names[1..][q - 1] == names[q];
    }
  }

  /** The reader's order is oldest first. */
  lemma {:induction false} NamesReadOldestFirst(names: seq<string>, disk: map<string, seq<byte>>, prefix: string,
                                                numFiles: nat, files: Directory, count: nat)
    requires count <= numFiles && numFiles > 0 && forall i: nat | i < count :: i in files
    requires SortedNames(names, prefix, numFiles, count) && OnDisk(disk, prefix, numFiles, files)
    ensures forall p | 0 <= p < |names| :: names[p] in disk
    ensures Contents(names, disk) == OldestFirst(files, count - 1)
    decreases count
  {
    if count > 0 {
      NamesHead(names, prefix, numFiles, count - 1);
      var rest := names[1..];
      NamesReadOldestFirst(rest, disk, prefix, numFiles, files, count - 1);
      assert forall p | 0 < p < |names| :: names[p] == rest[p - 1];
    }
  }

  /** As much of a file as there is room for. */
  method ReadFile(file: seq<byte>, buffer: array<byte>, from: nat) returns (done: nat)
    requires from <= buffer.Length
    modifies buffer
    ensures done == from + Min(|file|, buffer.Length - from)
    ensures buffer[..done] == old(buffer[..from]) + file[..done - from]
  {
    var n := Min(|file|, buffer.Length - from);
    forall i | 0 <= i < n { buffer[from + i] := file[i]; }
    done := from + n;
    ghost var expected := old(buffer[..from]) + file[..n];
    forall i | 0 <= i < done ensures buffer[i] == expected[i] {
      if i >= from { assert buffer[from + (i - from)] == file[i - from]; }
    }
  }

  /** Copies the listed files into the buffer, one after the other, until it is full. */
  method ReadAll(names: seq<string>, disk: map<string, seq<byte>>, buffer: array<byte>) returns (done: nat)
    requires forall p | 0 <= p < |names| :: names[p] in disk
    modifies buffer
    ensures done == Min(buffer.Length, |Contents(names, disk)|)
    ensures buffer[..done] == Contents(names, disk)[..done]
  {
    done := 0;
    var p := 0;
    ghost var all := Contents(names, disk);
    assert names[0..] == names;
    while p < |names| && done < buffer.Length
      invariant 0 <= p <= |names| && done <= buffer.Length && done <= |all|
      invariant buffer[..done] == all[..done]
      invariant done < buffer.Length ==> all[done..] == Contents(names[p..], disk)
    {
      assert names[p..][1..] == names[p + 1..];
      var file := disk[names[p]];
      ghost var rest, was := all[done..], done;
      done := ReadFile(file, buffer, done);
      assert all[..done] == all[..was] + rest[..done - was];
      assert all[done..] == rest[done - was..];
      p := p + 1;
    }
  }

  lemma ListingIsNames(names: seq<string>, prefix: string, numFiles: nat, files: Directory, count: nat)
    requires numFiles > 0 && forall i: nat :: i in files <==> i < count
    requires SortedListing(names, prefix, numFiles, files)
    ensures SortedNames(names, prefix, numFiles, count)
  {
    forall p | 0 <= p < |names| ensures IsNameBelow(names[p], prefix, numFiles, count) {
      assert IsNameIn(names[p], prefix, numFiles, files);
    }
  }

  /** Read in the order of the names, the directory gives its files oldest first. */
  lemma ListingReadsOldestFirst(names: seq<string>, disk: map<string, seq<byte>>, prefix: string, numFiles: nat,
                                files: Directory, oldest: nat)
    requires oldest < numFiles
    requires (forall i | 0 <= i <= oldest :: i in files) && (forall i | i in files :: i <= oldest)
    requires SortedListing(names, prefix, numFiles, files) && OnDisk(disk, prefix, numFiles, files)
    ensures forall p | 0 <= p < |names| :: names[p] in disk
    ensures Contents(names, disk) == OldestFirst(files, oldest)
  {
    ListingIsNames(names, prefix, numFiles, files, oldest + 1);
    NamesReadOldestFirst(names, disk, prefix, numFiles, files, oldest + 1);
  }

  /** The whole path: the reader of a session's directory gets the beginning of the log and its end. */
  lemma SessionReadsBack(session: CallSessionLog, names: seq<string>, disk: map<string, seq<byte>>, prefix: string)
    requires session.Valid()
    requires SortedListing(names, prefix, session.numFiles, session.files)
    requires OnDisk(disk, prefix, session.numFiles, session.files)
    ensures forall p | 0 <= p < |names| :: names[p] in disk
    ensures Contents(names, disk) == session.Kept()
  {
    session.KeepsStartAndEnd();
    ListingReadsOldestFirst(names, disk, prefix, session.numFiles, session.files, session.Oldest());
  }
}
