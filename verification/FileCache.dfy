/** Flash kept in one file per sector, reached through a table of two open descriptors. */
module FileCaches {

  type byte = bv8

  const TABLE_SIZE: nat := 2
  const NO_FILE: int := -1
  const NO_SECTOR: int := 0xFFFF_FFFF
  const ERASED: byte := 0xFF

  type Files = map<int, seq<byte>>

  datatype Result<T> = Ok(value: T) | Failed

  /** The bytes of a file after writing `data` at `offset`; a gap is filled with zeros. */
  function WriteAt(file: seq<byte>, offset: nat, data: seq<byte>): (r: seq<byte>)
    ensures |r| == if data == [] || offset + |data| <= |file| then |file| else offset + |data|
  {
    if data == [] then file
    else
      var padded := if |file| < offset then file + seq(offset - |file|, _ => 0) else file;
      padded[..offset] + data + (if offset + |data| <= |padded| then padded[offset + |data|..] else [])
  }

  // ---- Direct access: one byte array for each sector ----

  function SectorAddr(addr: nat, secSize: nat): nat
    requires secSize > 0
  {
    addr / secSize * secSize
  }

  function DirectRead(files: Files, secSize: nat, addr: nat, size: nat): Result<seq<byte>>
    requires secSize > 0
  {
    var s, offset := SectorAddr(addr, secSize), addr % secSize;
    if s in files && offset + size <= |files[s]| then Ok(files[s][offset..offset + size]) else Failed
  }

  function DirectWrite(files: Files, secSize: nat, addr: nat, data: seq<byte>): Files
    requires secSize > 0
  {
    var s := SectorAddr(addr, secSize);
    if s in files then files[s := WriteAt(files[s], addr % secSize, data)] else files
  }

  /** The sector's file is `length` erased bytes. */
  function DirectErase(files: Files, secSize: nat, addr: nat, length: nat): Files
    requires secSize > 0
  {
    files[SectorAddr(addr, secSize) := seq(length, _ => ERASED)]
  }

  /** The file system: the files by sector address, and the descriptors open on them. */
  class FileSystem {
    var files: Files
    var open: map<int, int>

    constructor (files: Files)
      ensures this.files == files && open == map[]
    {
      this.files, open := files, map[];
    }

    /** Open an existing file for reading and writing. */
    method OpenExisting(sec: int) returns (fd: int)
      modifies this`open
      ensures sec !in files ==> fd == -1 && open == old(open)
      ensures sec in files ==> fd > 0 && fd !in old(open) && open == old(open)[fd := sec]
    {
      if sec !in files {
        return -1;
      }
      fd := FreshDescriptor();
      open := open[fd := sec];
    }

    /** Create or truncate a file and open it. */
    method OpenTruncated(sec: int) returns (fd: int)
      modifies this
      ensures fd > 0 && fd !in old(open) && open == old(open)[fd := sec] && files == old(files)[sec := []]
    {
      fd := FreshDescriptor();
      open := open[fd := sec];
      files := files[sec := []];
    }

    /** Some positive number that is no open descriptor. */
    method FreshDescriptor() returns (fd: int)
      ensures fd > 0 && fd !in open
    {
      fd := 1;
      var taken := open.Keys;
      while fd in taken
        invariant fd > 0
        invariant forall k :: k in open && k >= fd ==> k in taken
        decreases taken
      {
        taken := taken - {fd};
        fd := fd + 1;
      }
    }

    method Close(fd: int)
      requires fd in open
      modifies this`open
      ensures open == old(open) - {fd}
    {
      open := open - {fd};
    }

    method Write(fd: int, offset: nat, data: seq<byte>)
      requires fd in open && open[fd] in files
      modifies this`files
      ensures files == old(files)[open[fd] := WriteAt(old(files)[open[fd]], offset, data)]
    {
      files := files[open[fd] := WriteAt(files[open[fd]], offset, data)];
    }
  }

  /** The descriptor table. */
  class FileCache {
    const secSize: nat
    const fs: FileSystem
    const curFile: array<int>
    const curSec: array<int>

    ghost predicate Shaped() {
      secSize > 0 && curFile.Length == curSec.Length == TABLE_SIZE && curFile != curSec
    }

    /** Every entry with a descriptor holds an open one of its own sector; sectors are distinct, and the
        open descriptors are exactly those in the table. */
    ghost predicate Consistent()
      reads fs, curFile, curSec
    {
      && Shaped()
      && (forall i :: 0 <= i < TABLE_SIZE && curFile[i] != NO_FILE ==>
            && curFile[i] > 0 && curFile[i] in fs.open && curSec[i] != NO_SECTOR
            && fs.open[curFile[i]] == curSec[i] && curSec[i] in fs.files)
      && (curSec[0] == curSec[1] ==> curSec[0] == NO_SECTOR)
      && (forall fd :: fd in fs.open ==> fd > 0 && (fd == curFile[0] || fd == curFile[1]))
    }

    /** Moreover, an entry without a descriptor belongs to no sector, except perhaps to `sec`. */
    ghost predicate UnusedExcept(sec: int)
      requires Shaped()
      reads curFile, curSec
    {
      forall i :: 0 <= i < TABLE_SIZE && curFile[i] == NO_FILE ==> curSec[i] == NO_SECTOR || curSec[i] == sec
    }

    /** The table has this descriptor for this sector. */
    ghost predicate Holds(sec: int, fd: int)
      requires Shaped()
      reads curFile, curSec
    {
      (curSec[0] == sec && curFile[0] == fd) || (curSec[1] == sec && curFile[1] == fd)
    }

    ghost predicate Valid()
      reads fs, curFile, curSec
    {
      Consistent() && UnusedExcept(NO_SECTOR)
    }

    constructor (secSize: nat, fs: FileSystem)
      requires secSize > 0 && fs.open == map[]
      ensures Valid() && this.secSize == secSize && this.fs == fs && fresh(curFile) && fresh(curSec)
    {
      this.secSize, this.fs := secSize, fs;
      curFile := new int[TABLE_SIZE](_ => NO_FILE);
      curSec := new int[TABLE_SIZE](_ => NO_SECTOR);
    }

    method GetFileFromCache(sec: int) returns (fd: int)
      requires Shaped()
      ensures (curSec[0] == sec ==> fd == curFile[0])
      ensures (curSec[0] != sec && curSec[1] == sec ==> fd == curFile[1])
      ensures (curSec[0] != sec && curSec[1] != sec ==> fd == -1)
    {
      for i := 0 to TABLE_SIZE
        invariant forall j :: 0 <= j < i ==> curSec[j] != sec
      {
        if curSec[i] == sec {
          return curFile[i];
        }
      }
      return -1;
    }

    /** The entry that a new descriptor goes to when its sector is not in the table. */
    ghost function FreeIndex(): (i: int)
      requires Shaped()
      reads curFile
      ensures -1 <= i < TABLE_SIZE
    {
      if curFile[1] == NO_FILE then 1 else if curFile[0] == NO_FILE then 0 else -1
    }

    /** Record the descriptor of a sector: in the sector's own entry, else in a free entry, else by
        closing the last entry and moving the others up. */
    method UpdateFileCache(sec: int, fd: int)
      requires Shaped()
      requires curSec[0] != sec && curSec[1] != sec && fd > 0 && FreeIndex() == -1 ==> curFile[1] in fs.open
      modifies fs`open, curFile, curSec
      ensures curSec[0] == old(curSec[0]) == sec ==>
                curFile[0] == fd && curFile[1] == old(curFile[1]) && curSec[1] == old(curSec[1])
                    && fs.open == old(fs.open)
      ensures old(curSec[0]) != sec && old(curSec[1]) == sec ==>
                && curFile[1] == fd && curFile[0] == old(curFile[0])
                && curSec[..] == old(curSec[..]) && fs.open == old(fs.open)
      ensures old(curSec[0]) == sec ==> curSec[..] == old(curSec[..])
      ensures old(curSec[0]) != sec && old(curSec[1]) != sec && fd <= 0 ==>
                curFile[..] == old(curFile[..]) && curSec[..] == old(curSec[..]) && fs.open == old(fs.open)
      ensures old(curSec[0]) != sec && old(curSec[1]) != sec && fd > 0 && old(FreeIndex()) >= 0 ==>
                && (forall j :: 0 <= j < TABLE_SIZE ==>
                      && curFile[j] == (if j == old(FreeIndex()) then fd else old(curFile[j]))
                      && curSec[j] == (if j == old(FreeIndex()) then sec else old(curSec[j])))
                && fs.open == old(fs.open)
      ensures old(curSec[0]) != sec && old(curSec[1]) != sec && fd > 0 && old(FreeIndex()) < 0 ==>
                && curFile[0] == fd && curFile[1] == old(curFile[0])
                && curSec[0] == sec && curSec[1] == old(curSec[0])
                && fs.open == old(fs.open) - {old(curFile[1])}
    {
      var freeIndex := TABLE_SIZE;
      for i := 0 to TABLE_SIZE
        invariant forall j :: 0 <= j < i ==> curSec[j] != sec
        invariant 0 <= freeIndex < i || freeIndex == TABLE_SIZE
        invariant forall j :: 0 <= j < i && curFile[j] == NO_FILE ==> freeIndex < i && j <= freeIndex
        invariant freeIndex < i ==> curFile[freeIndex] == NO_FILE
        invariant curFile[..] == old(curFile[..]) && curSec[..] == old(curSec[..])
      {
        if curSec[i] == sec {
          curFile[i] := fd;
          return;
        } else if curFile[i] == NO_FILE {
          freeIndex := i;
        }
      }
      if fd > 0 {
        if freeIndex < TABLE_SIZE {
          curFile[freeIndex] := fd;
          curSec[freeIndex] := sec;
        } else {
          MoveToEnd();
          curFile[0] := fd;
          curSec[0] := sec;
        }
      }
    }

    /** Make room at the head: close the last descriptor and move the others towards the end. */
    method MoveToEnd()
      requires Shaped() && curFile[1] in fs.open
      modifies fs`open, curFile, curSec
      ensures curFile[1] == old(curFile[0]) && curSec[1] == old(curSec[0])
      ensures fs.open == old(fs.open) - {old(curFile[1])}
    {
      var i := TABLE_SIZE - 1;
      while i > 0
        invariant 0 <= i <= 1
        invariant i == 1 ==> curFile[..] == old(curFile[..]) && curSec[..] == old(curSec[..]) && fs.open == old(fs.open)
        invariant i == 0 ==> curFile[1] == old(curFile[0]) && curSec[1] == old(curSec[0])
                             && fs.open == old(fs.open) - {old(curFile[1])}
      {
        fs.Close(curFile[i]);
        curFile[i] := curFile[i - 1];
        curSec[i] := curSec[i - 1];
        i := i - 1;
      }
    }

    /** Close the descriptor of a sector and take it out of the table. */
    method CloseCached(sec: int, fd: int)
      requires Valid() && sec != NO_SECTOR && fd > 0
      requires (curSec[0] == sec && curFile[0] == fd) || (curSec[1] == sec && curFile[1] == fd)
      modifies fs`open, curFile, curSec
      ensures Consistent() && UnusedExcept(sec)
      ensures forall i :: 0 <= i < TABLE_SIZE && curSec[i] == sec ==> curFile[i] == NO_FILE
    {
      fs.Close(fd);
      UpdateFileCache(sec, NO_FILE);
    }

    /** Open the file of a sector without a descriptor and record it. */
    method OpenAndRecord(sec: int) returns (fd: int)
      requires Consistent() && UnusedExcept(sec) && sec != NO_SECTOR
      requires forall i :: 0 <= i < TABLE_SIZE && curSec[i] == sec ==> curFile[i] == NO_FILE && sec in fs.files
      modifies fs`open, curFile, curSec
      ensures Valid()
      ensures if sec in fs.files then fd > 0 && fd in fs.open && fs.open[fd] == sec && Holds(sec, fd) else fd == -1
    {
      fd := fs.OpenExisting(sec);
      UpdateFileCache(sec, fd);
    }

    /** Empty the file of a sector without a descriptor. */
    method Truncate(sec: int)
      requires Consistent() && UnusedExcept(sec) && sec != NO_SECTOR
      requires forall i :: 0 <= i < TABLE_SIZE && curSec[i] == sec ==> curFile[i] == NO_FILE
      modifies fs
      ensures Consistent() && UnusedExcept(sec)
      ensures fs.files == old(fs.files)[sec := []]
    {
      var cleanFd := fs.OpenTruncated(sec);
      fs.Close(cleanFd);
    }

    /** The descriptor for the sector of `addr`; `clean` empties the file first. */
    method OpenDbFile(addr: nat, clean: bool) returns (fd: int)
      requires Valid() && SectorAddr(addr, secSize) != NO_SECTOR
      modifies fs, curFile, curSec
      ensures Valid()
      ensures var sec := SectorAddr(addr, secSize);
              && fs.files == (if clean then old(fs.files)[sec := []] else old(fs.files))
              && (if sec in fs.files then fd > 0 && fd in fs.open && fs.open[fd] == sec else fd == -1)
              && (fd > 0 ==> Holds(sec, fd))
              && (!clean ==> forall was :: was > 0 && old(Holds(sec, was)) ==>
                    fd == was && fs.open == old(fs.open)
                    && curFile[..] == old(curFile[..]) && curSec[..] == old(curSec[..]))
    {
      var sec := SectorAddr(addr, secSize);
      fd := GetFileFromCache(sec);
      if fd <= 0 || clean {
        if fd > 0 {
          CloseCached(sec, fd);
          fd := -1;
        }
        if clean {
          Truncate(sec);
        }
        var cached := GetFileFromCache(sec);
        if cached < 0 {
          fd := OpenAndRecord(sec);
        }
      }
    }

    /** Read through the table. */
    method Read(addr: nat, size: nat) returns (r: Result<seq<byte>>)
      requires Valid() && SectorAddr(addr, secSize) != NO_SECTOR
      modifies fs, curFile, curSec
      ensures Valid() && fs.files == old(fs.files)
      ensures r == DirectRead(old(fs.files), secSize, addr, size)
    {
      var fd := OpenDbFile(addr, false);
      if fd <= 0 {
        return Failed;
      }
      var file := fs.files[fs.open[fd]];
      var offset := addr % secSize;
      r := if offset + size <= |file| then Ok(file[offset..offset + size]) else Failed;
    }

    /** Write through the table. */
    method Write(addr: nat, data: seq<byte>) returns (ok: bool)
      requires Valid() && SectorAddr(addr, secSize) != NO_SECTOR
      modifies fs, curFile, curSec
      ensures Valid() && fs.files == DirectWrite(old(fs.files), secSize, addr, data)
      ensures ok <==> SectorAddr(addr, secSize) in old(fs.files)
    {
      var fd := OpenDbFile(addr, false);
      if fd <= 0 {
        return false;
      }
      fs.Write(fd, addr % secSize, data);
      return true;
    }

    /** Erase the sector of `addr`: empty the file and fill it in pieces of 32 bytes. The file is as long as the
        sector exactly when that is a number of whole pieces; `rest` is what is left to write behind the last
        piece, and if it is negative, more was written than the sector has. */
    method Erase(addr: nat) returns (rest: int)
      requires Valid() && SectorAddr(addr, secSize) != NO_SECTOR
      modifies fs, curFile, curSec
      ensures Valid() && -32 < rest <= 0 && (rest == 0 <==> secSize % 32 == 0)
      ensures fs.files == DirectErase(old(fs.files), secSize, addr, secSize - rest)
    {
      var sec := SectorAddr(addr, secSize);
      var fd := OpenDbFile(addr, true);
      var i := 0;
      assert seq(i * 32, _ => ERASED) == [];
      while i * 32 < secSize
        invariant 0 <= i * 32 < secSize + 32
        invariant Valid() && fd in fs.open && fs.open[fd] == sec
        invariant fs.files == old(fs.files)[sec := seq(i * 32, _ => ERASED)]
        decreases secSize - i * 32
      {
        fs.Write(fd, i * 32, seq(32, _ => ERASED));
        ErasedPiece(i);
        i := i + 1;
      }
      rest := secSize - i * 32;
    }
  }

  lemma ErasedPiece(i: nat)
    ensures WriteAt(seq(i * 32, _ => ERASED), i * 32, seq(32, _ => ERASED)) == seq((i + 1) * 32, _ => ERASED)
  {
  }

  // ---- Why the table must have two entries ----

  /** The eviction loop for a table of any length: what is left in the table, and what it closed. */
  datatype Eviction = Eviction(files: seq<int>, closed: seq<int>)

  function Evict(files: seq<int>, i: nat): (e: Eviction)
    requires i < |files|
    ensures |e.files| == |files| && |e.closed| == i
    decreases i
  {
    if i == 0 then Eviction(files, [])
    else
      var rest := Evict(files[i := files[i - 1]], i - 1);
      Eviction(rest.files, [files[i]] + rest.closed)
  }

  /** All entries up to `i` have moved one place, and the old descriptors of those places are closed. */
  ghost predicate Shifts(files: seq<int>, i: nat, e: Eviction) {
    && |e.files| == |files| && |e.closed| == i < |files|
    && (forall j {:trigger e.files[j]} :: 0 <= j < |files| ==>
          e.files[j] == if 0 < j <= i then files[j - 1] else files[j])
    && (forall j {:trigger e.closed[j]} :: 0 <= j < i ==> e.closed[j] == files[i - j])
  }

  lemma {:induction false} EvictShifts(files: seq<int>, i: nat)
    requires i < |files|
    ensures Shifts(files, i, Evict(files, i))
    decreases i
  {
    if i > 0 {
      var files' := files[i := files[i - 1]];
      EvictShifts(files', i - 1);
    }
  }

  /** A table entry other than the first, which is overwritten next, holds a closed descriptor. */
  ghost predicate HoldsClosed(e: Eviction) {
    exists j :: 0 < j < |e.files| && e.files[j] in e.closed
  }

  lemma LongTableHoldsClosed(files: seq<int>, e: Eviction)
    requires |files| > 2 && Shifts(files, |files| - 1, e)
    ensures HoldsClosed(e)
  {
    assert e.closed[|files| - 2] == files[1];
    assert e.files[2] == files[1] && e.files[2] in e.closed;
  }

  lemma ShortTableHoldsNoClosed(files: seq<int>, e: Eviction)
    requires 0 < |files| <= 2 && Shifts(files, |files| - 1, e)
    requires |files| == 2 ==> files[0] != files[1]
    ensures !HoldsClosed(e)
  {
    if |files| == 2 {
      assert e.closed == [files[1]] && e.files[1] == files[0];
    }
  }

  /** Evicting from a full table keeps closed descriptors out of it exactly when it has at most two
      entries: with more, the loop closes descriptors that it has just moved. */
  lemma EvictionSafeExactly(files: seq<int>)
    requires |files| > 0 && forall i, j :: 0 <= i < j < |files| ==> files[i] != files[j]
    ensures HoldsClosed(Evict(files, |files| - 1)) <==> |files| > 2
  {
    hide Evict, HoldsClosed, Shifts;
    EvictShifts(files, |files| - 1);
    if |files| > 2 {
      LongTableHoldsClosed(files, Evict(files, |files| - 1));
    } else {
      ShortTableHoldsNoClosed(files, Evict(files, |files| - 1));
    }
  }
}
