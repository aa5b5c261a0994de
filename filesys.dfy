/** The file system of code/filesys/filesys.cc: path resolution over
    directory tables, and Create, Open and Remove as ordered updates of the
    bitmap file, the file headers and the directory files. */
module FileSystems {
  import opened Geometry
  import opened Disk
  import opened BitMaps
  import opened Headers
  import opened Allocation
  import opened FileHeaders
  import opened Directories
  import opened Wrappers

  /** The contents of each directory file, by the sector of its header.
      OpenFile is not part of this model: a file's contents are taken to
      be whole entries, and a sector with no record holds an empty table. */
  type DirFiles = map<int, seq<DirectoryEntry>>

  function Contents(dirs: DirFiles, sector: int): seq<DirectoryEntry>
  {
    if sector in dirs then dirs[sector] else []
  }

  /** The state the operations act on: the header sectors, the bitmap
      file, the directory files, and whether the current and root directory
      handles are open (the formatting constructor leaves them NULL). */
  datatype Fs = Fs(disk: seq<Block>, bits: seq<bool>, dirs: DirFiles, handles: bool)

  predicate FsOk(fs: Fs)
  {
    IsDisk(fs.disk) && |fs.bits| == NumSectors
  }

  /** Whether Create or Remove reported success, and the state afterwards. */
  datatype Effect = Effect(ok: bool, fs: Fs)

  // ---------------------------------------------------------------------
  // ParseDirectory.

  /** strchr(s, '/'): the position of the first slash, or -1. */
  function FirstSlash(s: string): (k: int)
    ensures k == -1 <==> '/' !in s
    ensures k != -1 ==> 0 <= k < |s| && s[k] == '/' && '/' !in s[..k]
  {
    if s == [] then -1
    else if s[0] == '/' then 0
    else
      var k := FirstSlash(s[1..]);
      if k == -1 then -1
      else
        assert s[1..][..k] == s[1..k + 1];
        k + 1
  }

  /** The directory the source sector and caller's name buffer end up with. */
  datatype Parsed = Parsed(sector: int, name: string)

  /** ParseDirectory's loop from the table of `sector`, with the rest of
      the path in `fin` and the caller's buffer in `name`. Each component
      before a slash must be found as a directory; otherwise the answer is
      -1 and the buffer is left as it was. */
  function Walk(dirs: DirFiles, handles: bool, table: seq<DirectoryEntry>, fin: string,
                sector: int, name: string): Outcome<Parsed>
    decreases |fin|
  {
    var k := FirstSlash(fin);
    if k == -1 then
      // The closing test reads currentDirectoryFile.
      if handles then Done(Parsed(sector, fin)) else Halted
    else
      var temp := fin[..k];
      var s := LookUp(table, temp);
      if s < 0 || !IsDir(table, temp) then Done(Parsed(-1, name))
      else if !handles then Halted
      else if !InRange(s) then Halted
      else Walk(dirs, handles, Contents(dirs, s), fin[k + 1..], s, name)
  }

  /** FileSystem::ParseDirectory. An absolute path loses its leading slash;
      a relative one starts from the current directory, which is the root
      and halts when that handle is NULL. One trailing slash is dropped from
      a path that has several components. A path with no slash left
      resolves to the root, whichever directory it was relative to. */
  function Parse(dirs: DirFiles, handles: bool, name: string): Outcome<Parsed>
  {
    if !Absolute(name) && !handles then Halted
    else
      var fin := Trimmed(Unrooted(name));
      if '/' !in fin then Done(Parsed(DirectorySector, fin))
      else Walk(dirs, handles, Contents(dirs, DirectorySector), fin, DirectorySector, Unrooted(name))
  }

  predicate Absolute(name: string)
  {
    |name| > 0 && name[0] == '/'
  }

  /** The name without its leading slash: what the caller's buffer holds
      after an absolute path is copied back into it. */
  function Unrooted(name: string): (r: string)
    ensures |r| <= |name|
  {
    if Absolute(name) then name[1..] else name
  }

  /** A path of several components loses one trailing slash. */
  function Trimmed(fin: string): string
  {
    if '/' in fin && fin[|fin| - 1] == '/' then fin[..|fin| - 1] else fin
  }

  lemma {:induction false} WalkNeverUnmodelled(dirs: DirFiles, handles: bool, table: seq<DirectoryEntry>,
                                               fin: string, sector: int, name: string)
    ensures !Walk(dirs, handles, table, fin, sector, name).Unmodelled?
    decreases |fin|
  {
    var k := FirstSlash(fin);
    if k != -1 {
      var s := LookUp(table, fin[..k]);
      WalkNeverUnmodelled(dirs, handles, Contents(dirs, s), fin[k + 1..], s, name);
    }
  }

  /** Resolution either halts or yields a sector, which is the root, a
      sector found in a table along the way, or -1. */
  lemma ParseNeverUnmodelled(dirs: DirFiles, handles: bool, name: string)
    ensures !Parse(dirs, handles, name).Unmodelled?
  {
    var fin := Trimmed(Unrooted(name));
    WalkNeverUnmodelled(dirs, handles, Contents(dirs, DirectorySector), fin, DirectorySector, Unrooted(name));
  }

  /** A name without a slash resolves to the root and is kept as the leaf,
      as a relative path when the handles are open and as an absolute one always. */
  lemma ParseSingleComponent(dirs: DirFiles, handles: bool, name: string)
    requires '/' !in name
    ensures handles ==> Parse(dirs, handles, name) == Done(Parsed(DirectorySector, name))
    ensures Parse(dirs, handles, "/" + name) == Done(Parsed(DirectorySector, name))
  {
    assert ("/" + name)[1..] == name;
  }

  /** a/b descends into a when a is a directory of the root whose sector is
      on the disk, and then names b in it; when a is missing or not a
      directory the answer is -1. */
  lemma ParseTwoComponents(dirs: DirFiles, a: string, b: string)
    requires '/' !in a && '/' !in b && |a| > 0 && |b| > 0
    ensures var root := Contents(dirs, DirectorySector);
      var s := LookUp(root, a);
      Parse(dirs, true, a + "/" + b) ==
        if s < 0 || !IsDir(root, a) then Done(Parsed(-1, a + "/" + b))
        else if !InRange(s) then Halted
        else Done(Parsed(s, b))
  {
    var p := a + "/" + b;
    assert p[|a|] == '/' && p[..|a|] == a && p[|a| + 1..] == b;
    assert p[|p| - 1] == b[|b| - 1];
    assert FirstSlash(p) == |a|;
    assert p[0] == a[0];
    var root := Contents(dirs, DirectorySector);
    var s := LookUp(root, a);
    assert Parse(dirs, true, p) == Walk(dirs, true, root, p, DirectorySector, p);
    if !(s < 0 || !IsDir(root, a)) && InRange(s) {
      assert FirstSlash(b) == -1;
      assert Walk(dirs, true, root, p, DirectorySector, p) == Walk(dirs, true, Contents(dirs, s), b, s, p);
    }
  }

  // ---------------------------------------------------------------------
  // Create, Open and Remove as functions of the state.

  /** What Create does once the directory of the leaf is fetched: a missing
      name, a free header sector, room in the directory and room on disk
      for the initial size are all needed; then the header, the bitmap and
      the directory are written, in that order. The new file holds no
      entries. */
  function CreateInDir(fs: Fs, d: int, leaf: string, fileType: int, now: Stamp): Effect
    requires FsOk(fs)
  {
    var table := Contents(fs.dirs, d);
    if LookUp(table, leaf) != -1 then Effect(false, fs)
    else
      var g := Granted(fs.bits);
      if g.sector == -1 then Effect(false, fs)
      else if !(IndexOf(table, leaf) == -1 && |table| < MaxDirectorySize) then Effect(false, fs)
      else
        Install(fs, d, table + [NewEntry(leaf, g.sector, fileType, now)], g.sector, g.bits, fileType)
  }

  /** The end of Create: allocate the new file's initial sectors on the
      bitmap that already has its header sector marked, then write the
      header, the bitmap and the directory table `table'`. */
  function Install(fs: Fs, d: int, table': seq<DirectoryEntry>, sector: int, bits: seq<bool>, fileType: int): Effect
    requires FsOk(fs) && InRange(sector)
  {
    var a := AllocateSpec(EmptyHdr(), bits, fileType, d);
    if !a.ok then Effect(false, fs)
    else
      Effect(true, Fs(fs.disk[sector := Encode(a.hdr)], a.bits,
                      fs.dirs[d := Written(Contents(fs.dirs, d), table')][sector := []], fs.handles))
  }

  /** FileSystem::Create. Its last step reads rootDirectoryFile, so it halts
      when the handles are NULL, after any writes. */
  function CreateSpec(fs: Fs, name: string, fileType: int, now: Stamp): Outcome<Effect>
    requires FsOk(fs)
  {
    match Parse(fs.dirs, fs.handles, name)
    case Halted => Halted
    case Unmodelled => Unmodelled
    case Done(p) =>
      if !InRange(p.sector) then Halted
      else if !fs.handles then Halted
      else Done(CreateInDir(fs, p.sector, p.name, fileType, now))
  }

  /** FileSystem::Open: the sector of the leaf's header, or -1 (NULL) when
      the leaf is absent or is a directory. It reads no bitmap and writes
      nothing. */
  function OpenSpec(dirs: DirFiles, handles: bool, name: string): Outcome<int>
  {
    match Parse(dirs, handles, name)
    case Halted => Halted
    case Unmodelled => Unmodelled
    case Done(p) =>
      if !InRange(p.sector) then Halted
      else
        var table := Contents(dirs, p.sector);
        var s := LookUp(table, p.name);
        if s < 0 || IsDir(table, p.name) then Done(-1)
        else if !InRange(s) then Halted
        else Done(s)
  }

  /** What Remove does once the directory of the leaf is fetched: the data
      sectors and the header sector are freed and the bitmap written; the
      header itself is not rewritten. */
  function RemoveInDir(fs: Fs, d: int, leaf: string, now: Stamp, junk: nat -> DirectoryEntry): Outcome<Effect>
    requires FsOk(fs)
  {
    var table := Contents(fs.dirs, d);
    var s := LookUp(table, leaf);
    if s == -1 then Done(Effect(false, fs))
    else if !InRange(s) then Halted
    else
      match Released(Vol(Decode(fs.disk[s]), fs.disk, fs.bits))
      case Halted => Halted
      case Unmodelled => Unmodelled
      case Done(v) => DropEntry(fs.(bits := v.bits[s := false]), d, leaf, now, junk)
  }

  /** The rest of Remove, with the bitmap file already written: the entry
      is removed from the table Find stamped and the table written back. */
  function DropEntry(fs: Fs, d: int, leaf: string, now: Stamp, junk: nat -> DirectoryEntry): Outcome<Effect>
    requires FsOk(fs)
  {
    var table := Contents(fs.dirs, d);
    var stamped := Stamped(table, IndexOf(table, leaf), now);
    match RemoveOutcome(stamped, leaf, d, fs.disk, fs.bits)
    case Halted => Halted
    case Unmodelled => Unmodelled
    case Done(removed) =>
      var table' := if removed then Compacted(stamped, IndexOf(stamped, leaf), junk) else stamped;
      Done(Effect(true, fs.(dirs := fs.dirs[d := Written(table, table')])))
  }

  /** A Remove that gets past the lookup finds the name, and one that
      succeeds frees the header's sector, leaves the header sectors and the
      handles alone, and writes the table without the entry. */
  lemma RemoveInDirShape(fs: Fs, d: int, leaf: string, now: Stamp, junk: nat -> DirectoryEntry)
    requires FsOk(fs)
    requires RemoveInDir(fs, d, leaf, now, junk).Done? && RemoveInDir(fs, d, leaf, now, junk).value.ok
    ensures var fs' := RemoveInDir(fs, d, leaf, now, junk).value.fs;
      var table := Contents(fs.dirs, d);
      var i := IndexOf(table, leaf);
      var s := LookUp(table, leaf);
      i != -1 && InRange(s) && FsOk(fs') && !fs'.bits[s] && fs'.disk == fs.disk && fs'.handles == fs.handles &&
      fs'.dirs == fs.dirs[d := Written(table, Compacted(Stamped(table, i, now), i, junk))]
  {
    var table := Contents(fs.dirs, d);
    var i := IndexOf(table, leaf);
    var s := LookUp(table, leaf);
    var v := Released(Vol(Decode(fs.disk[s]), fs.disk, fs.bits)).value;
    var fs1 := fs.(bits := v.bits[s := false]);
    assert RemoveInDir(fs, d, leaf, now, junk) == DropEntry(fs1, d, leaf, now, junk);
    var stamped := Stamped(table, i, now);
    StampKeepsLookups(table, i, now, leaf);
    RemoveAbsent(stamped, leaf, d, fs1.disk, fs1.bits);
  }

  /** FileSystem::Remove. */
  function RemoveSpec(fs: Fs, name: string, now: Stamp, junk: nat -> DirectoryEntry): Outcome<Effect>
    requires FsOk(fs)
  {
    match Parse(fs.dirs, fs.handles, name)
    case Halted => Halted
    case Unmodelled => Unmodelled
    case Done(p) =>
      if !InRange(p.sector) then Halted
      else RemoveInDir(fs, p.sector, p.name, now, junk)
  }

  // ---------------------------------------------------------------------
  // Properties of the operations.

  /** With the handles NULL, as the formatting constructor leaves them,
      every Create halts. */
  lemma CreateUnmountedHalts(fs: Fs, name: string, fileType: int, now: Stamp)
    requires FsOk(fs) && !fs.handles
    ensures CreateSpec(fs, name, fileType, now) == Halted
  {
    ParseNeverUnmodelled(fs.dirs, fs.handles, name);
  }

  /** A Create that fails writes nothing. */
  lemma CreateFailsCleanly(fs: Fs, name: string, fileType: int, now: Stamp)
    requires FsOk(fs)
    ensures CreateSpec(fs, name, fileType, now).Done? && !CreateSpec(fs, name, fileType, now).value.ok ==>
      CreateSpec(fs, name, fileType, now).value.fs == fs
  {
  }

  /** A Create that succeeds takes the lowest free sector for the header,
      writes there a header of the requested type whose parent is the
      directory, marks that sector, and changes no other header sector. */
  lemma CreateSucceeds(fs: Fs, name: string, fileType: int, now: Stamp)
    requires FsOk(fs)
    requires CreateSpec(fs, name, fileType, now).Done? && CreateSpec(fs, name, fileType, now).value.ok
    ensures var fs' := CreateSpec(fs, name, fileType, now).value.fs;
      var d := Parse(fs.dirs, fs.handles, name).value.sector;
      var s := FirstClear(fs.bits);
      FsOk(fs') && 0 <= s < NumSectors && !fs.bits[s] && fs'.bits[s] &&
      Decode(fs'.disk[s]).fileType == fileType && Decode(fs'.disk[s]).parentSector == d &&
      (forall t :: 0 <= t < NumSectors && t != s ==> fs'.disk[t] == fs.disk[t]) &&
      fs'.handles == fs.handles
  {
    var p := Parse(fs.dirs, fs.handles, name).value;
    var g := Granted(fs.bits);
    GrantCost(fs.bits);
    var a := AllocateSpec(EmptyHdr(), g.bits, fileType, p.sector);
    DecodeEncode(a.hdr);
  }

  /** A file created under a root-level name can be opened under that name
      and yields the new header's sector, and creating it again fails. */
  lemma CreateThenOpen(fs: Fs, name: string, fileType: int, now: Stamp, fileType2: int, now2: Stamp)
    requires FsOk(fs) && fs.handles && '/' !in name && fs.bits[DirectorySector]
    requires fileType != TypeDir
    requires CreateSpec(fs, name, fileType, now).Done? && CreateSpec(fs, name, fileType, now).value.ok
    ensures var fs' := CreateSpec(fs, name, fileType, now).value.fs;
      FsOk(fs') && OpenSpec(fs'.dirs, fs'.handles, name) == Done(FirstClear(fs.bits)) &&
      CreateSpec(fs', name, fileType2, now2) == Done(Effect(false, fs'))
  {
    var fs' := CreateSpec(fs, name, fileType, now).value.fs;
    ParseSingleComponent(fs.dirs, true, name);
    ParseSingleComponent(fs'.dirs, true, name);
    var table := Contents(fs.dirs, DirectorySector);
    var g := Granted(fs.bits);
    GrantCost(fs.bits);
    assert g.sector != DirectorySector;
    var table' := table + [NewEntry(name, g.sector, fileType, now)];
    WrittenRoundTrip(table, table');
    assert Contents(fs'.dirs, DirectorySector) == table';
    AppendLookups(table, name, g.sector, fileType, now, name);
  }

  /** Removing a name that is in no entry of its directory fails and writes nothing. */
  lemma RemoveAbsentFails(fs: Fs, name: string, now: Stamp, junk: nat -> DirectoryEntry)
    requires FsOk(fs)
    requires Parse(fs.dirs, fs.handles, name).Done?
    requires var p := Parse(fs.dirs, fs.handles, name).value;
      InRange(p.sector) && IndexOf(Contents(fs.dirs, p.sector), p.name) == -1
    ensures RemoveSpec(fs, name, now, junk) == Done(Effect(false, fs))
  {
  }

  /** A Remove that succeeds frees the header's sector but rewrites no
      header: the old header, with its sector pointers, stays on disk. */
  lemma RemoveKeepsHeaders(fs: Fs, name: string, now: Stamp, junk: nat -> DirectoryEntry)
    requires FsOk(fs)
    requires RemoveSpec(fs, name, now, junk).Done? && RemoveSpec(fs, name, now, junk).value.ok
    ensures var fs' := RemoveSpec(fs, name, now, junk).value.fs;
      var p := Parse(fs.dirs, fs.handles, name).value;
      var s := LookUp(Contents(fs.dirs, p.sector), p.name);
      FsOk(fs') && InRange(s) && !fs'.bits[s] && fs'.disk == fs.disk
  {
    var p := Parse(fs.dirs, fs.handles, name).value;
    RemoveInDirShape(fs, p.sector, p.name, now, junk);
  }

  /** Removing the last entry of a directory leaves its file as it was:
      WriteBack writes the shorter table over the front of the file and the
      file does not shrink. The removed file can still be opened. */
  lemma RemoveLastKeepsEntry(fs: Fs, name: string, now: Stamp, junk: nat -> DirectoryEntry)
    requires FsOk(fs)
    requires RemoveSpec(fs, name, now, junk).Done? && RemoveSpec(fs, name, now, junk).value.ok
    requires var p := Parse(fs.dirs, fs.handles, name).value;
      var table := Contents(fs.dirs, p.sector);
      IndexOf(table, p.name) == |table| - 1
    ensures var fs' := RemoveSpec(fs, name, now, junk).value.fs;
      fs'.dirs == fs.dirs && fs'.handles == fs.handles &&
      OpenSpec(fs'.dirs, fs'.handles, name) == OpenSpec(fs.dirs, fs.handles, name)
  {
    var p := Parse(fs.dirs, fs.handles, name).value;
    assert RemoveSpec(fs, name, now, junk) == RemoveInDir(fs, p.sector, p.name, now, junk);
    var fs' := RemoveSpec(fs, name, now, junk).value.fs;
    RemoveInDirShape(fs, p.sector, p.name, now, junk);
    var table := Contents(fs.dirs, p.sector);
    var i := IndexOf(table, p.name);
    var stamped := Stamped(table, i, now);
    assert stamped[..i] == table[..i];
    CompactLast(stamped, junk);
    WrittenShorterKeeps(table);
    assert p.sector in fs.dirs;
    assert fs'.dirs == fs.dirs;
  }

  // ---------------------------------------------------------------------
  // Format.

  /** The bitmap before the headers are allocated: sectors 0 and 1 marked. */
  function ReservedBits(): (bits: seq<bool>)
    ensures |bits| == NumSectors
  {
    seq(NumSectors, _ => false)[FreeMapSector := true][DirectorySector := true]
  }

  /** The bitmap header gets sector 2 as its one data sector, the root
      directory gets none, and exactly sectors 0, 1 and 2 end up marked. */
  lemma FormatLayout()
    ensures var m := AllocateSpec(EmptyHdr(), ReservedBits(), TypeDiskBitmap, -1);
      var r := AllocateSpec(EmptyHdr(), m.bits, TypeDir, -1);
      m.ok && r.ok && m.hdr.dataSectors[0] == 2 && r.bits == m.bits &&
      m.hdr.fileType == TypeDiskBitmap && r.hdr.fileType == TypeDir &&
      m.hdr.parentSector == -1 && r.hdr.parentSector == -1 &&
      r.hdr.numBytes == 0 && m.hdr.numBytes == FreeMapFileSize &&
      (forall t :: 0 <= t < NumSectors ==> (r.bits[t] <==> t <= 2))
  {
    var b := ReservedBits();
    ReservedFirstClear(b, b[2 := true]);
    AllocateBitmap(EmptyHdr(), b, -1);
    var m := AllocateSpec(EmptyHdr(), b, TypeDiskBitmap, -1);
    AllocateEmpty(EmptyHdr(), m.bits, TypeDir, -1);
  }

  /** Sector 2 is the lowest free sector of ReservedBits, and marking it
      leaves exactly sectors 0, 1 and 2 marked. */
  lemma ReservedFirstClear(b: seq<bool>, m: seq<bool>)
    requires b == ReservedBits() && |m| == NumSectors && m == b[2 := true]
    ensures FirstClear(b) == 2 && CountClear(b) >= 1
    ensures forall t :: 0 <= t < NumSectors ==> (m[t] <==> t <= 2)
  {
    assert !b[2] && b[0] && b[1];
  }

  /** The first half of formatting: reserve sectors 0 and 1, allocate the
      bitmap file's header and the root directory's header (the ASSERTs on
      both hold), and write the two headers. */
  method FormatHeaders(disk: SynchDisk) returns (freeMap: BitMap)
    requires disk.Valid()
    modifies disk
    ensures fresh(freeMap) && disk.Valid()
    ensures var m := AllocateSpec(EmptyHdr(), ReservedBits(), TypeDiskBitmap, -1);
      var r := AllocateSpec(EmptyHdr(), m.bits, TypeDir, -1);
      freeMap.bits == r.bits &&
      disk.blocks == old(disk.blocks)[FreeMapSector := Encode(m.hdr)][DirectorySector := Encode(r.hdr)]
  {
    freeMap := new BitMap(NumSectors);
    var mapHdr := new FileHeader();
    var rootDirHdr := new FileHeader();
    freeMap.Mark(FreeMapSector);
    freeMap.Mark(DirectorySector);
    assert freeMap.bits == ReservedBits();
    FormatLayout();
    var ok := mapHdr.Allocate(freeMap, TypeDiskBitmap, -1);
    assert ok;
    ghost var m := mapHdr.View();
    ok := rootDirHdr.Allocate(freeMap, TypeDir, -1);
    assert ok;
    assert mapHdr.View() == m;
    mapHdr.WriteBack(disk, FreeMapSector);
    rootDirHdr.WriteBack(disk, DirectorySector);
  }

  // ---------------------------------------------------------------------
  // The file system object.

  class FileSystem {
    const disk: SynchDisk
    /** The bitmap file (freeMapFile, also currentFreeMapFile). */
    const freeMapFile: BitMap
    var dirs: DirFiles
    /** currentDirectoryFile and rootDirectoryFile are open (not NULL). */
    var handles: bool

    ghost predicate Valid()
      reads this, disk, freeMapFile
    {
      disk.Valid() && |freeMapFile.bits| == NumSectors
    }

    function State(): (fs: Fs)
      reads this, disk, freeMapFile
      requires Valid()
      ensures FsOk(fs)
    {
      Fs(disk.blocks, freeMapFile.bits, dirs, handles)
    }

    /** FileSystem::FileSystem(TRUE): reserves sectors 0 and 1, allocates the
        two headers (whose ASSERTs hold), writes them, writes the bitmap and
        the empty root directory, and leaves the directory handles NULL. */
    constructor Format(disk: SynchDisk)
      requires disk.Valid()
      modifies disk
      ensures Valid() && this.disk == disk && !handles
      ensures dirs == map[DirectorySector := []]
      ensures var m := AllocateSpec(EmptyHdr(), ReservedBits(), TypeDiskBitmap, -1);
        var r := AllocateSpec(EmptyHdr(), m.bits, TypeDir, -1);
        freeMapFile.bits == r.bits &&
        disk.blocks == old(disk.blocks)[FreeMapSector := Encode(m.hdr)][DirectorySector := Encode(r.hdr)]
    {
      var freeMap := FormatHeaders(disk);
      this.disk := disk;
      var file := new BitMap(NumSectors);
      freeMapFile := file;
      // The root directory's header says 0 bytes: its file holds no entries.
      var directory := new Directory(DirectorySector);
      var written := directory.WriteBack([]);
      dirs := map[DirectorySector := written];
      handles := false;
      new;
      freeMap.WriteBack(freeMapFile);
    }

    /** FileSystem::FileSystem(FALSE): opens the existing files. */
    constructor Mount(disk: SynchDisk, freeMapFile: BitMap, dirs: DirFiles)
      requires disk.Valid() && |freeMapFile.bits| == NumSectors
      ensures Valid() && handles
      ensures this.disk == disk && this.freeMapFile == freeMapFile && this.dirs == dirs
    {
      this.disk := disk;
      this.freeMapFile := freeMapFile;
      this.dirs := dirs;
      handles := true;
    }

    /** FileSystem::ParseDirectory, returning the sector and the caller's
        rewritten name buffer. */
    method ParseDirectory(name: string, now: Stamp) returns (r: Outcome<Parsed>)
      ensures r == Parse(dirs, handles, name)
    {
      var buffer := name;
      var finalName: string;
      var dir := new Directory(DirectorySector);
      var sector := DirectorySector;
      if |name| > 0 && name[0] == '/' {
        finalName := name[1..];
        buffer := finalName;
      } else {
        finalName := name;
        if !handles {
          return Halted;
        }
      }
      // The root, or the current directory, which is the root.
      dir.FetchFrom(DirectorySector, Contents(dirs, DirectorySector));
      if '/' in finalName && finalName[|finalName| - 1] == '/' {
        finalName := finalName[..|finalName| - 1];
      }
      assert buffer == Unrooted(name) && finalName == Trimmed(buffer);
      if '/' !in finalName {
        return Done(Parsed(sector, finalName));
      }
      r := Descend(dir, finalName, buffer, now);
    }

    /** ParseDirectory's loop over the components of `finalName`, from the
        root's table in `dir`. */
    method Descend(dir: Directory, finalName: string, buffer: string, now: Stamp) returns (r: Outcome<Parsed>)
      modifies dir
      ensures r == Walk(dirs, handles, old(dir.table), finalName, DirectorySector, buffer)
    {
      var rest := finalName;
      var sector := DirectorySector;
      while '/' in rest
        invariant Walk(dirs, handles, dir.table, rest, sector, buffer) ==
                  Walk(dirs, handles, old(dir.table), finalName, DirectorySector, buffer)
        decreases |rest|
      {
        var k := FirstSlash(rest);
        var temp := rest[..k];
        rest := rest[k + 1..];
        ghost var table := dir.table;
        StampKeepsLookups(table, IndexOf(table, temp), now, temp);
        sector := dir.Find(temp, now);
        var isDir := dir.IsDirectory(temp);
        if sector < 0 || !isDir {
          return Done(Parsed(-1, buffer));
        }
        // currentDirectoryFile->GetFileDescriptor() on a NULL handle.
        if !handles {
          return Halted;
        }
        // new OpenFile(sector) reads the header.
        if !InRange(sector) {
          return Halted;
        }
        dir.FetchFrom(sector, Contents(dirs, sector));
      }
      if !handles {
        return Halted;
      }
      return Done(Parsed(sector, rest));
    }

    /** FileSystem::Create. */
    method Create(name: string, fileType: int, now: Stamp) returns (r: Outcome<bool>)
      requires Valid()
      modifies this, disk, freeMapFile
      ensures Valid()
      ensures var spec := CreateSpec(old(State()), name, fileType, now);
        r.Done? == spec.Done? && r.Halted? == spec.Halted? &&
        (r.Done? ==> r.value == spec.value.ok && State() == spec.value.fs)
    {
      var p := ParseDirectory(name, now);
      ParseNeverUnmodelled(dirs, handles, name);
      if !p.Done? {
        return Halted;
      }
      var dirSector, nameBuffer := p.value.sector, p.value.name;
      // new OpenFile(dirSector) reads the header.
      if !InRange(dirSector) {
        return Halted;
      }
      var success := CreateIn(dirSector, nameBuffer, fileType, now);
      // rootDirectoryFile->GetFileDescriptor() on a NULL handle.
      if !handles {
        return Halted;
      }
      return Done(success);
    }

    /** The body of Create between fetching the directory and releasing it. */
    method CreateIn(dirSector: int, nameBuffer: string, fileType: int, now: Stamp) returns (success: bool)
      requires Valid() && InRange(dirSector)
      modifies this, disk, freeMapFile
      ensures Valid() && handles == old(handles)
      ensures var e := CreateInDir(old(State()), dirSector, nameBuffer, fileType, now);
        success == e.ok && State() == e.fs
    {
      var dirContents := Contents(dirs, dirSector);
      var directory := new Directory(dirSector);
      directory.FetchFrom(dirSector, dirContents);
      StampKeepsLookups(dirContents, IndexOf(dirContents, nameBuffer), now, nameBuffer);
      var found := directory.Find(nameBuffer, now);
      if found != -1 {
        return false;
      }
      success := CreateNew(directory, dirSector, nameBuffer, dirContents, fileType, now);
    }

    /** Create once the name is known to be absent: take a header sector,
        add the entry, allocate the file, and write everything back. */
    method CreateNew(directory: Directory, dirSector: int, nameBuffer: string, ghost dirContents: seq<DirectoryEntry>,
                     fileType: int, now: Stamp) returns (success: bool)
      requires Valid() && InRange(dirSector) && dirContents == Contents(dirs, dirSector)
      requires LookUp(dirContents, nameBuffer) == -1
      requires directory.table == Stamped(dirContents, IndexOf(dirContents, nameBuffer), now)
      modifies this, disk, freeMapFile, directory
      ensures Valid() && handles == old(handles)
      ensures var e := CreateInDir(old(State()), dirSector, nameBuffer, fileType, now);
        success == e.ok && State() == e.fs
    {
      StampKeepsLookups(dirContents, IndexOf(dirContents, nameBuffer), now, nameBuffer);
      ghost var fs := State();
      var freeMap := new BitMap(NumSectors);
      freeMap.FetchFrom(freeMapFile);
      var sector := freeMap.Find();
      ghost var g := Granted(fs.bits);
      GrantCost(fs.bits);
      if sector == -1 {
        return false;
      }
      var added := directory.Add(nameBuffer, sector, fileType, now);
      if !added {
        return false;
      }
      success := CreateInstall(directory, freeMap, dirSector, sector, fileType);
    }

    /** Create's last steps: FileHeader::Allocate, then the writes. */
    method CreateInstall(directory: Directory, freeMap: BitMap, dirSector: int, sector: int, fileType: int)
      returns (success: bool)
      requires Valid() && InRange(sector) && |freeMap.bits| == NumSectors && freeMap != freeMapFile
      modifies this, disk, freeMapFile, freeMap
      ensures Valid() && handles == old(handles)
      ensures var e := Install(old(State()), dirSector, directory.table, sector, old(freeMap.bits), fileType);
        success == e.ok && State() == e.fs
    {
      var hdr := new FileHeader();
      var ok := hdr.Allocate(freeMap, fileType, dirSector);
      if !ok {
        return false;
      }
      hdr.WriteBack(disk, sector);
      // The header is read back into a fresh object and not used.
      freeMap.WriteBack(freeMapFile);
      var written := directory.WriteBack(Contents(dirs, dirSector));
      dirs := dirs[dirSector := written][sector := []];
      return true;
    }

    /** FileSystem::Open: the header sector the returned file is bound to, or -1 for NULL. */
    method Open(name: string, now: Stamp) returns (r: Outcome<int>)
      requires Valid()
      ensures r == OpenSpec(dirs, handles, name)
    {
      var p := ParseDirectory(name, now);
      ParseNeverUnmodelled(dirs, handles, name);
      if !p.Done? {
        return Halted;
      }
      var dirSector, nameBuffer := p.value.sector, p.value.name;
      if !InRange(dirSector) {
        return Halted;
      }
      var dirContents := Contents(dirs, dirSector);
      var directory := new Directory(dirSector);
      directory.FetchFrom(dirSector, dirContents);
      StampKeepsLookups(dirContents, IndexOf(dirContents, nameBuffer), now, nameBuffer);
      var sector := directory.Find(nameBuffer, now);
      if sector >= 0 {
        var isDir := directory.IsDirectory(nameBuffer);
        if !isDir {
          // new OpenFile(sector) reads the header.
          if !InRange(sector) {
            return Halted;
          }
          return Done(sector);
        }
        return Done(-1);
      }
      return Done(-1);
    }

    /** FileSystem::Remove. The slots Directory::Remove leaves uninitialised hold `junk`. */
    method Remove(name: string, now: Stamp, junk: nat -> DirectoryEntry) returns (r: Outcome<bool>)
      requires Valid()
      modifies this, freeMapFile
      ensures Valid()
      ensures var spec := RemoveSpec(old(State()), name, now, junk);
        r.Done? == spec.Done? && r.Halted? == spec.Halted? &&
        (r.Done? ==> r.value == spec.value.ok && State() == spec.value.fs)
    {
      var p := ParseDirectory(name, now);
      ParseNeverUnmodelled(dirs, handles, name);
      if !p.Done? {
        return Halted;
      }
      var dirSector, nameBuffer := p.value.sector, p.value.name;
      if !InRange(dirSector) {
        return Halted;
      }
      r := RemoveIn(dirSector, nameBuffer, now, junk);
    }

    /** The body of Remove after the directory sector is known. */
    method RemoveIn(dirSector: int, nameBuffer: string, now: Stamp, junk: nat -> DirectoryEntry)
      returns (r: Outcome<bool>)
      requires Valid() && InRange(dirSector)
      modifies this, freeMapFile
      ensures Valid()
      ensures var spec := RemoveInDir(old(State()), dirSector, nameBuffer, now, junk);
        r.Done? == spec.Done? && r.Halted? == spec.Halted? &&
        (r.Done? ==> r.value == spec.value.ok && State() == spec.value.fs)
    {
      var dirContents := Contents(dirs, dirSector);
      var directory := new Directory(dirSector);
      directory.FetchFrom(dirSector, dirContents);
      var sector := directory.Find(nameBuffer, now);
      if sector == -1 {
        return Done(false);
      }
      // fileHdr->FetchFrom(sector) reads the header.
      if !InRange(sector) {
        return Halted;
      }
      var released := ReleaseFile(sector);
      if !released {
        return Halted;
      }
      r := DropIn(directory, dirSector, nameBuffer, dirContents, now, junk);
    }

    /** Remove's middle steps: fetch the header, deallocate its sectors on a
        copy of the bitmap, clear the header's own sector, write the bitmap
        file. `ok` is false where Deallocate's ASSERT stops the program. */
    method ReleaseFile(sector: int) returns (ok: bool)
      requires Valid() && InRange(sector)
      modifies freeMapFile
      ensures Valid()
      ensures var rel := Released(Vol(Decode(disk.blocks[sector]), disk.blocks, old(freeMapFile.bits)));
        ok == rel.Done? && (ok ==> freeMapFile.bits == rel.value.bits[sector := false])
    {
      var fileHdr := new FileHeader();
      fileHdr.FetchFrom(disk, sector);
      var freeMap := new BitMap(NumSectors);
      freeMap.FetchFrom(freeMapFile);
      var released := fileHdr.Deallocate(disk, freeMap);
      if !released.Done? {
        return false;
      }
      freeMap.Clear(sector);
      freeMap.WriteBack(freeMapFile);
      return true;
    }

    /** Directory::Remove on the fetched table, then its WriteBack. */
    method DropIn(directory: Directory, dirSector: int, nameBuffer: string, ghost dirContents: seq<DirectoryEntry>,
                  now: Stamp, junk: nat -> DirectoryEntry) returns (r: Outcome<bool>)
      requires Valid() && dirContents == Contents(dirs, dirSector)
      requires directory.selfSector == dirSector
      requires directory.table == Stamped(dirContents, IndexOf(dirContents, nameBuffer), now)
      modifies this, directory
      ensures Valid()
      ensures var spec := DropEntry(old(State()), dirSector, nameBuffer, now, junk);
        r.Done? == spec.Done? && r.Halted? == spec.Halted? &&
        (r.Done? ==> r.value == spec.value.ok && State() == spec.value.fs)
    {
      var removed := directory.Remove(nameBuffer, disk, freeMapFile, junk);
      if !removed.Done? {
        return Halted;
      }
      var written := directory.WriteBack(Contents(dirs, dirSector));
      dirs := dirs[dirSector := written];
      return Done(true);
    }
  }
}
