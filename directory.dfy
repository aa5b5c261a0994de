/** The directory of code/filesys/directory.cc: a table of fixed-size
    entries, each binding a file name to the sector of the file's header. */
module Directories {
  import opened Geometry
  import opened Disk
  import opened BitMaps
  import opened Headers
  import opened Allocation
  import opened FileHeaders
  import opened Wrappers

  // directory.h is not part of this model: the name length below is the
  // value of standard Nachos, and the size of an entry is left unspecified.

  /** Significant characters of a file name. */
  const FileNameMaxLen: nat := 9

  type EntryBytes = n: nat | 0 < n < 0x8000_0000 witness 1

  /** sizeof(DirectoryEntry), in bytes. */
  const EntrySize: EntryBytes

  /** Text that ctime produced; the model does not read clocks. */
  type Stamp = seq<char>

  datatype DirectoryEntry = DirectoryEntry(
    inUse: bool, name: string, sector: int, fileType: int,
    createTime: Stamp, lastAccessTime: Stamp, lastModifyTime: Stamp)

  // ---------------------------------------------------------------------
  // Names. A C string is modelled by the characters before its terminator.

  /** The name strncpy leaves in an entry: at most FileNameMaxLen characters. */
  function Truncate(s: string): (t: string)
    ensures |t| <= FileNameMaxLen && t <= s
    ensures |s| <= FileNameMaxLen ==> t == s
  {
    if |s| <= FileNameMaxLen then s else s[..FileNameMaxLen]
  }

  /** strncmp(stored, name, FileNameMaxLen) == 0. */
  predicate SameName(stored: string, name: string)
  {
    Truncate(stored) == Truncate(name)
  }

  /** The test FindIndex applies to an entry. */
  predicate Matches(e: DirectoryEntry, name: string)
  {
    e.inUse && SameName(e.name, name)
  }

  // ---------------------------------------------------------------------
  // The table as a value.

  /** The first entry at or after `from` that is in use under `name`, or -1. */
  function IndexFrom(table: seq<DirectoryEntry>, name: string, from: nat): (r: int)
    requires from <= |table|
    ensures r == -1 || from <= r < |table|
    ensures r == -1 <==> forall i :: from <= i < |table| ==> !Matches(table[i], name)
    ensures r != -1 ==> Matches(table[r], name) && forall i :: from <= i < r ==> !Matches(table[i], name)
    decreases |table| - from
  {
    if from == |table| then -1
    else if Matches(table[from], name) then from
    else IndexFrom(table, name, from + 1)
  }

  /** Directory::FindIndex: the first entry in use under `name`, or -1 (also for an empty table). */
  function IndexOf(table: seq<DirectoryEntry>, name: string): (r: int)
    ensures r == -1 || 0 <= r < |table|
    ensures r == -1 <==> forall i :: 0 <= i < |table| ==> !Matches(table[i], name)
    ensures r != -1 ==> Matches(table[r], name) && forall i :: 0 <= i < r ==> !Matches(table[i], name)
  {
    IndexFrom(table, name, 0)
  }

  /** Directory::Find: the header sector of the entry FindIndex picks, or -1. */
  function LookUp(table: seq<DirectoryEntry>, name: string): int
  {
    var i := IndexOf(table, name);
    if i == -1 then -1 else table[i].sector
  }

  /** Directory::IsDirectory: some entry goes by `name` and the first one is a directory. */
  function IsDir(table: seq<DirectoryEntry>, name: string): bool
  {
    var i := IndexOf(table, name);
    i != -1 && table[i].fileType == TypeDir
  }

  /** The table after Find has stamped entry i with the current time. */
  function Stamped(table: seq<DirectoryEntry>, i: int, now: Stamp): (t: seq<DirectoryEntry>)
    ensures |t| == |table|
  {
    if 0 <= i < |table| then table[i := table[i].(lastAccessTime := now, lastModifyTime := now)]
    else table
  }

  /** Stamping an entry changes no lookup: Find leaves sector, type and name alone. */
  lemma StampKeepsLookups(table: seq<DirectoryEntry>, i: int, now: Stamp, name: string)
    ensures IndexOf(Stamped(table, i, now), name) == IndexOf(table, name)
    ensures LookUp(Stamped(table, i, now), name) == LookUp(table, name)
    ensures IsDir(Stamped(table, i, now), name) == IsDir(table, name)
  {
    var t := Stamped(table, i, now);
    assert forall k :: 0 <= k < |table| ==>
      ((Matches(t[k], name) <==> Matches(table[k], name)) &&
       t[k].sector == table[k].sector && t[k].fileType == table[k].fileType);
  }

  /** The entry Add appends. */
  function NewEntry(name: string, sector: int, fileType: int, now: Stamp): DirectoryEntry
  {
    DirectoryEntry(true, Truncate(name), sector, fileType, now, now, now)
  }

  /** The appended entry is found under the name it was added with, and
      appending leaves every lookup that already succeeded as it was. */
  lemma AppendLookups(table: seq<DirectoryEntry>, name: string, sector: int, fileType: int, now: Stamp, other: string)
    requires IndexOf(table, name) == -1
    ensures var t := table + [NewEntry(name, sector, fileType, now)];
      IndexOf(t, name) == |table| && LookUp(t, name) == sector && IsDir(t, name) == (fileType == TypeDir) &&
      (IndexOf(table, other) != -1 ==> IndexOf(t, other) == IndexOf(table, other) &&
                                       LookUp(t, other) == LookUp(table, other) &&
                                       IsDir(t, other) == IsDir(table, other))
  {
    var t := table + [NewEntry(name, sector, fileType, now)];
    assert Matches(t[|table|], name);
    assert forall k :: 0 <= k < |table| ==> t[k] == table[k];
  }

  /** The table Remove builds when it drops entry i from a table of two
      entries or more: the entries before i are copied; memcpy then moves
      tableSize-i-1 bytes, not entries, so what the slots from i on hold
      is not determined by the source and is given by `junk`. */
  function Compacted(table: seq<DirectoryEntry>, i: int, junk: nat -> DirectoryEntry): (t: seq<DirectoryEntry>)
    requires 0 <= i < |table|
    ensures |t| == |table| - 1
    ensures forall k :: 0 <= k < i ==> t[k] == table[k]
    ensures forall k :: i <= k < |t| ==> t[k] == junk(k)
  {
    seq(|table| - 1, k requires 0 <= k < |table| - 1 => if k < i then table[k] else junk(k))
  }

  /** Dropping the last entry keeps exactly the others, whatever the uninitialised slots hold. */
  lemma CompactLast(table: seq<DirectoryEntry>, junk: nat -> DirectoryEntry)
    requires |table| > 0
    ensures Compacted(table, |table| - 1, junk) == table[..|table| - 1]
  {
  }

  /** The directory file after WriteBack: the first tableSize entries are
      overwritten, an empty table writes nothing, and the file never shrinks. */
  function Written(contents: seq<DirectoryEntry>, table: seq<DirectoryEntry>): (w: seq<DirectoryEntry>)
    ensures |table| == 0 ==> w == contents
    ensures |table| > 0 ==> |w| == (if |contents| > |table| then |contents| else |table|)
    ensures |table| > 0 ==> w[..|table|] == table
    ensures forall k :: |table| <= k < |w| ==> w[k] == contents[k]
  {
    if |table| == 0 then contents
    else if |contents| <= |table| then table
    else table + contents[|table|..]
  }

  /** Fetching the table back yields what was written exactly when the file
      held no more entries than the table. */
  lemma WrittenRoundTrip(contents: seq<DirectoryEntry>, table: seq<DirectoryEntry>)
    ensures Written(contents, table) == table <==> |contents| <= |table|
  {
    if |contents| > |table| {
      assert |Written(contents, table)| != |table|;
    }
  }

  /** Writing back a table shorter than the file by its last entry leaves
      the file as it was: that entry is still on disk. */
  lemma WrittenShorterKeeps(contents: seq<DirectoryEntry>)
    requires |contents| > 0
    ensures Written(contents, contents[..|contents| - 1]) == contents
  {
    var t := contents[..|contents| - 1];
    var w := Written(contents, t);
    if |t| == 0 {
    } else {
      assert w == t + contents[|t|..];
    }
  }

  /** The names List prints, in table order. */
  function InUseNames(table: seq<DirectoryEntry>): (names: seq<string>)
    ensures |names| <= |table|
  {
    if table == [] then []
    else InUseNames(table[..|table| - 1]) +
         (if table[|table| - 1].inUse then [table[|table| - 1].name] else [])
  }

  /** Every listed name is found by FindIndex, and every entry in use is listed. */
  lemma {:induction false} ListedNames(table: seq<DirectoryEntry>)
    ensures forall n :: n in InUseNames(table) ==> IndexOf(table, n) != -1
    ensures forall k :: 0 <= k < |table| && table[k].inUse ==> table[k].name in InUseNames(table)
    decreases |table|
  {
    if table != [] {
      var p := table[..|table| - 1];
      ListedNames(p);
      forall n | n in InUseNames(table) ensures IndexOf(table, n) != -1 {
        if n in InUseNames(p) {
          var i := IndexOf(p, n);
          assert table[i] == p[i];
          assert Matches(table[i], n);
        } else {
          assert Matches(table[|table| - 1], n);
        }
      }
      forall k | 0 <= k < |table| && table[k].inUse ensures table[k].name in InUseNames(table) {
        if k < |p| {
          assert p[k] == table[k];
        }
      }
    }
  }

  // ---------------------------------------------------------------------
  // Directory::Remove's check on the directory file's last sector.

  /** divRoundDown(length - sizeof(DirectoryEntry), SectorSize) < divRoundDown(length, SectorSize):
      the subtraction and the comparison are done in size_t, so the int
      operands are taken modulo SizeRange. */
  predicate ShrinkCrossesSector(length: int)
  {
    ((length - EntrySize) % SizeRange) / SectorSize < CDiv(length, SectorSize) % SizeRange
  }

  /** For a length of at least one entry the test asks whether dropping an
      entry's worth of bytes leaves a sector; a shorter non-negative length
      wraps around and never passes. */
  lemma ShrinkCrossesSectorMeaning(length: int)
    requires 0 <= length < SizeRange
    ensures ShrinkCrossesSector(length) <==>
      length >= EntrySize && (length - EntrySize) / SectorSize < length / SectorSize
  {
    if length < EntrySize {
      var y := length - EntrySize + SizeRange;
      assert 0 <= y < SizeRange;
      assert (y - SizeRange) / SizeRange == -1;
      assert (length - EntrySize) % SizeRange == y;
      assert y >= length;
      DivMonotone(length, y);
      assert CDiv(length, SectorSize) % SizeRange == length / SectorSize;
    } else {
      assert (length - EntrySize) % SizeRange == length - EntrySize;
      assert CDiv(length, SectorSize) % SizeRange == length / SectorSize;
    }
  }

  /** Division by the sector size is monotone. */
  lemma DivMonotone(a: nat, b: nat)
    requires a <= b
    ensures a / SectorSize <= b / SectorSize
  {
    var qa, qb := a / SectorSize, b / SectorSize;
    assert qa * SectorSize <= a <= b < (qb + 1) * SectorSize;
  }

  /** Directory::Remove's answer. The header and the bitmap it changes are
      local copies that are never written back, so besides the table only
      whether it halts matters: Deallocate's ASSERT for a sole entry, the
      Test ASSERT on the last sector otherwise. */
  function RemoveOutcome(table: seq<DirectoryEntry>, name: string, selfSector: int,
                         disk: seq<Block>, bits: seq<bool>): Outcome<bool>
    requires IsDisk(disk) && |bits| == NumSectors
  {
    var i := IndexOf(table, name);
    if |table| == 0 || i == -1 then Done(false)
    else if !InRange(selfSector) then Halted
    else
      var hdr := Decode(disk[selfSector]);
      if |table| == 1 then
        (if Released(Vol(hdr, disk, bits)).Done? then Done(true) else Halted)
      else if ShrinkCrossesSector(hdr.numBytes) then
        var last := CDiv(hdr.numBytes, SectorSize);
        if 0 <= last < NumSectors && bits[last] then Done(true) else Halted
      else Done(true)
  }

  /** Remove fails without a trace exactly when the name is absent. */
  lemma RemoveAbsent(table: seq<DirectoryEntry>, name: string, selfSector: int, disk: seq<Block>, bits: seq<bool>)
    requires IsDisk(disk) && |bits| == NumSectors
    ensures RemoveOutcome(table, name, selfSector, disk, bits) == Done(false) <==> IndexOf(table, name) == -1
  {
  }

  // ---------------------------------------------------------------------
  // The in-memory directory.

  class Directory {
    var table: seq<DirectoryEntry>
    var selfSector: int

    /** Directory::Directory: an empty table. */
    constructor (selfSector: int)
      ensures table == [] && this.selfSector == selfSector
    {
      table := [];
      this.selfSector := selfSector;
    }

    /** Directory::FetchFrom of the open file with header sector `descriptor`
        whose contents are `contents`; the file's length is taken to be a
        whole number of entries. */
    method FetchFrom(descriptor: int, contents: seq<DirectoryEntry>)
      modifies this
      ensures selfSector == descriptor && table == contents
    {
      selfSector := descriptor;
      table := contents;
    }

    /** Directory::WriteBack over the file contents `contents`. */
    method WriteBack(contents: seq<DirectoryEntry>) returns (written: seq<DirectoryEntry>)
      ensures written == Written(contents, table)
    {
      written := contents;
      if |table| != 0 {
        if |contents| <= |table| {
          written := table;
        } else {
          written := table + contents[|table|..];
        }
      }
    }

    /** Directory::FindIndex: a linear scan. */
    method FindIndex(name: string) returns (r: int)
      ensures r == IndexOf(table, name)
    {
      if |table| == 0 {
        return -1;
      }
      var i := 0;
      while i < |table|
        invariant 0 <= i <= |table|
        invariant forall k :: 0 <= k < i ==> !Matches(table[k], name)
      {
        if table[i].inUse && Truncate(table[i].name) == Truncate(name) {
          return i;
        }
        i := i + 1;
      }
      return -1;
    }

    /** Directory::Find: the sector, after stamping the entry's access and modify times. */
    method Find(name: string, now: Stamp) returns (r: int)
      modifies this
      ensures r == LookUp(old(table), name)
      ensures table == Stamped(old(table), IndexOf(old(table), name), now)
      ensures selfSector == old(selfSector)
    {
      var i := FindIndex(name);
      if i != -1 {
        table := table[i := table[i].(lastAccessTime := now, lastModifyTime := now)];
        return table[i].sector;
      }
      return -1;
    }

    method IsDirectory(name: string) returns (b: bool)
      ensures b == IsDir(table, name)
    {
      var i := FindIndex(name);
      if i != -1 {
        if table[i].fileType == TypeDir {
          return true;
        }
      }
      return false;
    }

    /** Directory::Add: refuses a name already present and a full table,
        otherwise appends the entry. */
    method Add(name: string, newSector: int, fileType: int, now: Stamp) returns (ok: bool)
      modifies this
      ensures ok <==> IndexOf(old(table), name) == -1 && |old(table)| < MaxDirectorySize
      ensures table == if ok then old(table) + [NewEntry(name, newSector, fileType, now)] else old(table)
      ensures selfSector == old(selfSector)
    {
      var i := FindIndex(name);
      if i != -1 {
        if |table| != 0 {
          return false;
        }
      }
      if |table| + 1 > MaxDirectorySize {
        return false;
      }
      table := table + [NewEntry(name, newSector, fileType, now)];
      return true;
    }

    /** Directory::Remove. `disk` holds the headers and `freeMapFile` the
        bitmap file; neither is changed. */
    method Remove(name: string, disk: SynchDisk, freeMapFile: BitMap, junk: nat -> DirectoryEntry)
      returns (r: Outcome<bool>)
      requires disk.Valid() && |freeMapFile.bits| == NumSectors
      modifies this
      ensures r == RemoveOutcome(old(table), name, old(selfSector), disk.blocks, freeMapFile.bits)
      ensures selfSector == old(selfSector)
      ensures r == Done(false) ==> table == old(table)
      ensures r == Done(true) ==> table == Compacted(old(table), IndexOf(old(table), name), junk)
    {
      var i := FindIndex(name);
      if |table| <= 0 || i == -1 {
        return Done(false);
      }
      var selfHdr := new FileHeader();
      var currentFreeMap := new BitMap(NumSectors);
      currentFreeMap.FetchFrom(freeMapFile);
      if !InRange(selfSector) {
        return Halted;
      }
      selfHdr.FetchFrom(disk, selfSector);
      if |table| == 1 {
        table := [];
        var d := selfHdr.Deallocate(disk, currentFreeMap);
        if !d.Done? {
          return Halted;
        }
        // The ASSERT that follows Deallocate holds: it empties the header.
        assert selfHdr.FileLength() == 0;
        return Done(true);
      }
      table := Compacted(table, i, junk);
      var length := selfHdr.FileLength();
      if ShrinkCrossesSector(length) {
        var lastSector := CDiv(length, SectorSize);
        if !(0 <= lastSector < NumSectors) || !currentFreeMap.Test(lastSector) {
          return Halted;
        }
        currentFreeMap.Clear(lastSector);
      }
      return Done(true);
    }

    /** Directory::List: the names of the entries in use. */
    method List() returns (names: seq<string>)
      ensures names == InUseNames(table)
    {
      names := [];
      var i := 0;
      while i < |table|
        invariant 0 <= i <= |table|
        invariant names == InUseNames(table[..i])
      {
        assert table[..i + 1][..i] == table[..i];
        if table[i].inUse {
          names := names + [table[i].name];
        }
        i := i + 1;
      }
      assert table[..i] == table;
    }
  }
}
