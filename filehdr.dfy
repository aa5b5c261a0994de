/** The FileHeader class of code/filesys/filehdr.cc: its fields are updated
    in place, and each method is proved to leave the state the functions of
    Headers, Growth and Allocation describe. */
module FileHeaders {
  import opened Geometry
  import opened Disk
  import opened BitMaps
  import opened Inodes
  import opened Tiers
  import opened Headers
  import opened Growth
  import opened Allocation
  import opened Wrappers

  class FileHeader {
    var numBytes: int
    var numSectors: int
    var fileType: int
    var parentSector: int
    var dataSectors: array<int>
    var singleIndex: int
    var doubleIndex: int
    var tripleIndex: int

    ghost predicate Valid()
      reads this
    {
      dataSectors.Length == NumDirect
    }

    /** The header as a value. */
    function View(): (h: Hdr)
      reads this, dataSectors
      requires Valid()
      ensures WellFormed(h)
    {
      Hdr(numBytes, numSectors, fileType, parentSector, dataSectors[..], singleIndex, doubleIndex, tripleIndex)
    }

    /** FileHeader::FileHeader. */
    constructor ()
      ensures Valid() && fresh(dataSectors)
      ensures View() == EmptyHdr()
    {
      numBytes := 0;
      numSectors := 0;
      fileType := -1;
      parentSector := -1;
      var slots := new int[NumDirect];
      var i := 0;
      while i < NumDirect
        invariant 0 <= i <= NumDirect
        invariant forall k :: 0 <= k < i ==> slots[k] == Absent
      {
        slots[i] := Absent;
        i := i + 1;
      }
      dataSectors := slots;
      singleIndex := Absent;
      doubleIndex := Absent;
      tripleIndex := Absent;
      new;
      assert dataSectors[..] == seq(NumDirect, _ => Absent);
    }

    /** FileHeader::Allocate. */
    method Allocate(freeMap: BitMap, fileType: int, parentSector: int) returns (ok: bool)
      requires Valid()
      modifies this, dataSectors, freeMap
      ensures Valid() && dataSectors == old(dataSectors)
      ensures Allocated(ok, View(), freeMap.bits) == AllocateSpec(old(View()), old(freeMap.bits), fileType, parentSector)
    {
      this.fileType := fileType;
      this.parentSector := parentSector;
      if fileType == TypeDir {
        numBytes, numSectors := 0, 0;
      } else if fileType == TypeDiskBitmap {
        numBytes, numSectors := FreeMapFileSize, DivRoundUp(FreeMapFileSize, SectorSize);
      } else if fileType == TypeNormal {
        numBytes, numSectors := 0, 0;
      } else {
        // DT_INODE and every other type
        numBytes, numSectors := SectorSize, NumDirect;
      }
      singleIndex, doubleIndex, tripleIndex := Absent, Absent, Absent;
      if freeMap.NumClear() < numSectors {
        return false;
      }
      if fileType == TypeDiskBitmap {
        var s := freeMap.Find();
        dataSectors[0] := s;
        ClearSlotsFrom(1);
        assert dataSectors[..][..1] == [s];
        assert dataSectors[..] == [s] + seq(NumDirect - 1, _ => Absent);
      } else if fileType == TypeNormal || fileType == TypeDir {
        ClearSlotsFrom(0);
        assert dataSectors[..] == seq(NumDirect, _ => Absent);
      }
      return true;
    }

    /** Allocate's loop setting the direct slots from `from` on to absent. */
    method ClearSlotsFrom(from: nat)
      requires Valid() && from <= NumDirect
      modifies dataSectors
      ensures dataSectors[..] == old(dataSectors[..])[..from] + seq(NumDirect - from, _ => Absent)
    {
      var i := from;
      while i < NumDirect
        invariant from <= i <= NumDirect
        invariant forall k :: 0 <= k < from ==> dataSectors[k] == old(dataSectors[k])
        invariant forall k :: from <= k < i ==> dataSectors[k] == Absent
        modifies dataSectors
      {
        dataSectors[i] := Absent;
        i := i + 1;
      }
    }

    /** The loop state of Append: the header, the disk, the bitmap and the two inode objects. */
    function RunOf(disk: SynchDisk, freeMap: BitMap, sinode: Inode, dinode: Inode): (r: Run)
      reads this, dataSectors, disk, freeMap, sinode, sinode.subNode, dinode, dinode.subNode
      requires Valid() && disk.Valid() && |freeMap.bits| == NumSectors && sinode.Valid() && dinode.Valid()
      ensures RunOk(r)
    {
      Run(Vol(View(), disk.blocks, freeMap.bits), sinode.View(), dinode.View())
    }

    /** One iteration of Append's loop in the single-indirect tier. */
    method GrowSingle(disk: SynchDisk, freeMap: BitMap, sinode: Inode, dinode: Inode, k: nat) returns (halted: bool)
      requires Valid() && disk.Valid() && |freeMap.bits| == NumSectors && sinode.Valid() && dinode.Valid()
      requires k < MaxSingleSize
      requires sinode != dinode && sinode.subNode != dinode.subNode && sinode.subNode != dataSectors
      modifies this, disk, freeMap, sinode, sinode.subNode
      ensures Valid() && disk.Valid() && dataSectors == old(dataSectors) && |freeMap.bits| == NumSectors
      ensures sinode.Valid() && sinode.subNode == old(sinode.subNode)
      ensures var out := AppendSingle(old(RunOf(disk, freeMap, sinode, dinode)), k);
        halted == out.Halted? && (!halted ==> out == Done(RunOf(disk, freeMap, sinode, dinode)))
    {
      if singleIndex < 0 {
        singleIndex := freeMap.Find();
      } else {
        if !InRange(singleIndex) {
          return true;
        }
        sinode.FetchFrom(disk, singleIndex);
      }
      if sinode.Check(k) {
        return false;
      }
      var _ := sinode.Find(freeMap, k);
      if !InRange(singleIndex) {
        return true;
      }
      sinode.WriteBack(disk, singleIndex);
      return false;
    }

    /** One iteration of Append's loop in the double-indirect tier; `sub` is
        the object sinode points to afterwards. */
    method GrowDouble(disk: SynchDisk, freeMap: BitMap, sinode: Inode, dinode: Inode, j: nat, k: nat)
      returns (halted: bool, sub: Inode)
      requires Valid() && disk.Valid() && |freeMap.bits| == NumSectors && sinode.Valid() && dinode.Valid()
      requires j < MaxSingleSize && k < MaxSingleSize
      requires sinode != dinode && sinode.subNode != dinode.subNode
      requires sinode.subNode != dataSectors && dinode.subNode != dataSectors
      modifies this, disk, freeMap, sinode, sinode.subNode, dinode, dinode.subNode
      ensures Valid() && disk.Valid() && dataSectors == old(dataSectors) && |freeMap.bits| == NumSectors
      ensures dinode.Valid() && dinode.subNode == old(dinode.subNode)
      ensures sub.Valid() && sub != dinode && sub.subNode != dinode.subNode && sub.subNode != dataSectors
      ensures (sub == sinode && sub.subNode == old(sinode.subNode)) || (fresh(sub) && fresh(sub.subNode))
      ensures var out := AppendDouble(old(RunOf(disk, freeMap, sinode, dinode)), j, k);
        halted == out.Halted? && (!halted ==> out == Done(RunOf(disk, freeMap, sub, dinode)))
    {
      if doubleIndex < 0 {
        doubleIndex := freeMap.Find();
      } else {
        if !InRange(doubleIndex) {
          return true, sinode;
        }
        dinode.FetchFrom(disk, doubleIndex);
      }
      halted, sub := GrowDoubleSub(disk, freeMap, sinode, dinode, j, k);
    }

    /** The rest of that iteration, once dinode holds the top block: a
        missing sub-block is drawn and sinode becomes a new object. */
    method GrowDoubleSub(disk: SynchDisk, freeMap: BitMap, sinode: Inode, dinode: Inode, j: nat, k: nat)
      returns (halted: bool, sub: Inode)
      requires Valid() && disk.Valid() && |freeMap.bits| == NumSectors && sinode.Valid() && dinode.Valid()
      requires j < MaxSingleSize && k < MaxSingleSize
      requires sinode != dinode && sinode.subNode != dinode.subNode
      requires sinode.subNode != dataSectors && dinode.subNode != dataSectors
      modifies disk, freeMap, sinode, sinode.subNode, dinode.subNode
      ensures disk.Valid() && |freeMap.bits| == NumSectors && dinode.Valid()
      ensures sub.Valid() && sub != dinode && sub.subNode != dinode.subNode && sub.subNode != dataSectors
      ensures (sub == sinode && sub.subNode == old(sinode.subNode)) || (fresh(sub) && fresh(sub.subNode))
      ensures var out := AppendDoubleSub(old(RunOf(disk, freeMap, sinode, dinode)), j, k);
        halted == out.Halted? && (!halted ==> out == Done(RunOf(disk, freeMap, sub, dinode)))
    {
      sub := sinode;
      var ss: int;
      if !dinode.Check(j) {
        sub := new Inode();
        ss := dinode.Find(freeMap, j);
      } else {
        ss := dinode.Find(freeMap, j);
        if !InRange(ss) {
          return true, sub;
        }
        sub.FetchFrom(disk, ss);
      }
      if sub.Check(k) {
        return false, sub;
      }
      var _ := sub.Find(freeMap, k);
      if !InRange(ss) || !InRange(doubleIndex) {
        return true, sub;
      }
      sub.WriteBack(disk, ss);
      dinode.WriteBack(disk, doubleIndex);
      return false, sub;
    }

    /** One iteration of Append's loop for virtual index v, classified the
        way Append classifies it; `sub` is the object sinode points to
        afterwards. */
    method GrowAt(disk: SynchDisk, freeMap: BitMap, sinode: Inode, dinode: Inode, v: int)
      returns (r: Outcome<()>, sub: Inode)
      requires Valid() && disk.Valid() && |freeMap.bits| == NumSectors && sinode.Valid() && dinode.Valid()
      requires sinode != dinode && sinode.subNode != dinode.subNode
      requires sinode.subNode != dataSectors && dinode.subNode != dataSectors
      modifies this, dataSectors, disk, freeMap, sinode, sinode.subNode, dinode, dinode.subNode
      ensures Valid() && disk.Valid() && dataSectors == old(dataSectors) && |freeMap.bits| == NumSectors
      ensures dinode.Valid() && dinode.subNode == old(dinode.subNode)
      ensures sub.Valid() && sub != dinode && sub.subNode != dinode.subNode && sub.subNode != dataSectors
      ensures (sub == sinode && sub.subNode == old(sinode.subNode)) || (fresh(sub) && fresh(sub.subNode))
      ensures var out := AppendSector(old(RunOf(disk, freeMap, sinode, dinode)), v);
        r.Done? == out.Done? && r.Halted? == out.Halted? &&
        (r.Done? ==> out.value == RunOf(disk, freeMap, sub, dinode))
    {
      sub := sinode;
      var vAddr := v - NumDirect;
      if SizeLess(vAddr + NumDirect, NumDirect) {
        if dataSectors[vAddr + NumDirect] == Absent {
          var s := freeMap.Find();
          dataSectors[vAddr + NumDirect] := s;
        }
      } else if SizeLess(vAddr, MaxSingleSize) {
        var halted := GrowSingle(disk, freeMap, sinode, dinode, vAddr);
        if halted {
          return Halted, sub;
        }
      } else if SizeLess(vAddr, MaxSingleSize + MaxDoubleSize) {
        var w := vAddr - MaxSingleSize;
        var halted;
        halted, sub := GrowDouble(disk, freeMap, sinode, dinode, w / MaxSingleSize, w % MaxSingleSize);
        if halted {
          return Halted, sub;
        }
      } else if SizeLess(vAddr, MaxSingleSize + MaxDoubleSize + MaxTripleSize) {
        return Unmodelled, sub;
      }
      return Done(()), sub;
    }

    /** One iteration of Append's loop, extending the run recorded so far. */
    method GrowNext(disk: SynchDisk, freeMap: BitMap, sinode: Inode, dinode: Inode, v: int,
                    ghost first: int, ghost n: nat, ghost trace: seq<Run>)
      returns (r: Outcome<()>, sub: Inode, ghost trace': seq<Run>)
      requires Valid() && disk.Valid() && |freeMap.bits| == NumSectors && sinode.Valid() && dinode.Valid()
      requires sinode != dinode && sinode.subNode != dinode.subNode
      requires sinode.subNode != dataSectors && dinode.subNode != dataSectors
      requires Trace(first, trace) && 0 < |trace| <= n && v == first + |trace| - 1
      requires trace[|trace| - 1] == RunOf(disk, freeMap, sinode, dinode) && numSectors == first
      modifies this, dataSectors, disk, freeMap, sinode, sinode.subNode, dinode, dinode.subNode
      ensures Valid() && disk.Valid() && dataSectors == old(dataSectors) && |freeMap.bits| == NumSectors
      ensures dinode.Valid() && dinode.subNode == old(dinode.subNode)
      ensures sub.Valid() && sub != dinode && sub.subNode != dinode.subNode && sub.subNode != dataSectors
      ensures (sub == sinode && sub.subNode == old(sinode.subNode)) || (fresh(sub) && fresh(sub.subNode))
      ensures r.Done? ==> numSectors == first && Trace(first, trace') &&
                          trace' == trace + [RunOf(disk, freeMap, sub, dinode)]
      ensures !r.Done? ==> var out := AppendAll(trace[0], first, n);
                           !out.Done? && r.Halted? == out.Halted?
    {
      trace' := trace;
      r, sub := GrowAt(disk, freeMap, sinode, dinode, v);
      if !r.Done? {
        TraceStuck(first, trace, n);
        return;
      }
      AppendSectorKeepsCounters(trace[|trace| - 1], v);
      TraceExtend(first, trace, RunOf(disk, freeMap, sub, dinode));
      trace' := trace + [RunOf(disk, freeMap, sub, dinode)];
    }

    /** Append's loop over the sectorsToAdd indices that follow numSectors,
        with the sinode and dinode objects Append builds; they are returned
        for Append to delete. */
    method GrowAll(disk: SynchDisk, freeMap: BitMap, sectorsToAdd: int) returns (r: Outcome<()>, sinode: Inode, dinode: Inode)
      requires Valid() && disk.Valid() && |freeMap.bits| == NumSectors
      modifies this, dataSectors, disk, freeMap
      ensures Valid() && disk.Valid() && dataSectors == old(dataSectors) && |freeMap.bits| == NumSectors
      ensures sinode.Valid() && dinode.Valid()
      ensures var out := AppendAll(Start(old(Vol(View(), disk.blocks, freeMap.bits))), old(numSectors),
                                   if sectorsToAdd < 0 then 0 else sectorsToAdd);
        r.Done? == out.Done? && r.Halted? == out.Halted? &&
        (r.Done? ==> out.value == RunOf(disk, freeMap, sinode, dinode))
    {
      ghost var first := numSectors;
      ghost var n: nat := if sectorsToAdd < 0 then 0 else sectorsToAdd;
      sinode := new Inode();
      dinode := new Inode();
      ghost var trace := [RunOf(disk, freeMap, sinode, dinode)];
      var i := 1;
      while i <= sectorsToAdd
        invariant 1 <= i <= n + 1 && |trace| == i
        invariant Valid() && disk.Valid() && dataSectors == old(dataSectors) && |freeMap.bits| == NumSectors
        invariant sinode.Valid() && dinode.Valid() && fresh(sinode) && fresh(dinode)
        invariant fresh(sinode.subNode) && fresh(dinode.subNode)
        invariant sinode != dinode && sinode.subNode != dinode.subNode
        invariant numSectors == first
        invariant Trace(first, trace) && trace[0] == Start(old(Vol(View(), disk.blocks, freeMap.bits)))
        invariant trace[i - 1] == RunOf(disk, freeMap, sinode, dinode)
      {
        var step, sub;
        step, sub, trace := GrowNext(disk, freeMap, sinode, dinode, numSectors + i - 1, first, n, trace);
        if !step.Done? {
          return if step.Halted? then Halted else Unmodelled, sub, dinode;
        }
        sinode := sub;
        i := i + 1;
      }
      TraceRuns(first, trace, n);
      return Done(()), sinode, dinode;
    }

    /** FileHeader::Append: the bitmap is read from the bitmap file and
        written back to it only when the loop and the closing ASSERT pass;
        sinode and dinode are deleted after that. */
    method Append(disk: SynchDisk, freeMapFile: BitMap, bytesToAdd: int) returns (r: Outcome<bool>)
      requires Valid() && disk.Valid() && |freeMapFile.bits| == NumSectors
      modifies this, dataSectors, disk, freeMapFile
      ensures Valid() && disk.Valid() && dataSectors == old(dataSectors)
      ensures var spec := AppendSpec(old(Vol(View(), disk.blocks, freeMapFile.bits)), bytesToAdd);
        r.Done? == spec.Done? && r.Halted? == spec.Halted? &&
        (r.Done? ==> r.value == spec.value.ok && Vol(View(), disk.blocks, freeMapFile.bits) == spec.value.vol)
    {
      var sectorsToAdd := CDivRoundUp(bytesToAdd, SectorSize);
      var currentFreeMap := new BitMap(NumSectors);
      currentFreeMap.FetchFrom(freeMapFile);
      if sectorsToAdd > currentFreeMap.NumClear() {
        return Done(false);
      }
      var step, sinode, dinode := GrowAll(disk, currentFreeMap, sectorsToAdd);
      if !step.Done? {
        return if step.Halted? then Halted else Unmodelled;
      }
      if CDivRoundUp(numBytes, SectorSize) != numSectors {
        return Halted;
      }
      currentFreeMap.WriteBack(freeMapFile);
      if !sinode.Intact() || !dinode.Intact() {
        return Halted;
      }
      return Done(true);
    }

    /** One iteration of Deallocate's loop: tests and clears the sector of index i. */
    method ReleaseNext(disk: SynchDisk, freeMap: BitMap, i: int, ghost h0: Hdr, ghost b0: seq<bool>, ghost n: nat)
      returns (ok: bool)
      requires Valid() && disk.Valid() && |freeMap.bits| == NumSectors && WellFormed(h0)
      requires 0 <= i < n && n == (if h0.numSectors < 0 then 0 else h0.numSectors)
      requires numBytes == h0.numBytes && numSectors == h0.numSectors && fileType == h0.fileType
      requires parentSector == h0.parentSector && singleIndex == h0.singleIndex
      requires doubleIndex == h0.doubleIndex && tripleIndex == h0.tripleIndex
      requires forall k :: 0 <= k < NumDirect ==> dataSectors[k] == (if k < i then Absent else h0.dataSectors[k])
      requires FreedBits(h0, disk.blocks, b0, i) == Some(freeMap.bits)
      modifies dataSectors, freeMap
      ensures |freeMap.bits| == NumSectors
      ensures ok ==> FreedBits(h0, disk.blocks, b0, i + 1) == Some(freeMap.bits)
      ensures ok ==> forall k :: 0 <= k < NumDirect ==> dataSectors[k] == (if k < i + 1 then Absent else h0.dataSectors[k])
      ensures !ok ==> FreedBits(h0, disk.blocks, b0, n).None?
    {
      var look := ByteToSector(disk, i * SectorSize);
      ReleaseLookup(h0, View(), disk.blocks, i);
      FreedBitsNext(h0, disk.blocks, b0, i, freeMap.bits, look);
      if look.Fault? || !(0 <= look.sector < |freeMap.bits|) || !freeMap.Test(look.sector) {
        FreedBitsStuck(h0, disk.blocks, b0, i + 1, n);
        return false;
      }
      freeMap.Clear(look.sector);
      if i < NumDirect {
        dataSectors[i] := Absent;
      }
      return true;
    }

    /** The lookup for byte i * SectorSize, on a header that differs from h0
        only in direct slots below i, is h0's lookup for index i. */
    static lemma ReleaseLookup(h0: Hdr, h: Hdr, disk: seq<Block>, i: nat)
      requires WellFormed(h0) && WellFormed(h) && IsDisk(disk)
      requires h.singleIndex == h0.singleIndex && h.doubleIndex == h0.doubleIndex && h.tripleIndex == h0.tripleIndex
      requires i < NumDirect ==> h.dataSectors[i] == h0.dataSectors[i]
      ensures SectorAt(h, disk, VirtualIndex(i * SectorSize)) == SectorAt(h0, disk, i)
    {
      VirtualIndexOfSector(i);
      SectorAtFrame(h0, h, disk, i);
    }

    /** FileHeader::Deallocate: tests and clears the sector of every index
        below numSectors, then empties the header. */
    method Deallocate(disk: SynchDisk, freeMap: BitMap) returns (r: Outcome<()>)
      requires Valid() && disk.Valid() && |freeMap.bits| == NumSectors
      modifies this, dataSectors, freeMap
      ensures Valid() && dataSectors == old(dataSectors)
      ensures var spec := Released(old(Vol(View(), disk.blocks, freeMap.bits)));
        r.Done? == spec.Done? && (r.Done? ==> Vol(View(), disk.blocks, freeMap.bits) == spec.value)
    {
      ghost var h0 := View();
      ghost var n: nat := if numSectors < 0 then 0 else numSectors;
      var i := 0;
      while i < numSectors
        invariant 0 <= i <= n
        invariant Valid() && dataSectors == old(dataSectors) && |freeMap.bits| == NumSectors
        invariant numBytes == h0.numBytes && numSectors == h0.numSectors && fileType == h0.fileType
        invariant parentSector == h0.parentSector && singleIndex == h0.singleIndex
        invariant doubleIndex == h0.doubleIndex && tripleIndex == h0.tripleIndex
        invariant forall k :: 0 <= k < NumDirect ==> dataSectors[k] == (if k < i then Absent else h0.dataSectors[k])
        invariant FreedBits(h0, disk.blocks, old(freeMap.bits), i) == Some(freeMap.bits)
      {
        var ok := ReleaseNext(disk, freeMap, i, h0, old(freeMap.bits), n);
        if !ok {
          return Halted;
        }
        i := i + 1;
      }
      singleIndex, doubleIndex, tripleIndex := Absent, Absent, Absent;
      numSectors, numBytes := 0, 0;
      assert dataSectors[..] == ReleasedHdr(h0).dataSectors;
      return Done(());
    }

    /** FileHeader::FetchFrom. */
    method FetchFrom(disk: SynchDisk, sector: int)
      requires Valid() && disk.Valid() && InRange(sector)
      modifies this, dataSectors
      ensures Valid() && dataSectors == old(dataSectors)
      ensures View() == Decode(disk.blocks[sector])
    {
      var b := disk.ReadSector(sector);
      numBytes, numSectors, fileType, parentSector := b[0], b[1], b[2], b[3];
      var i := 0;
      while i < NumDirect
        invariant 0 <= i <= NumDirect
        invariant forall k :: 0 <= k < i ==> dataSectors[k] == b[4 + k]
        modifies dataSectors
      {
        dataSectors[i] := b[4 + i];
        i := i + 1;
      }
      singleIndex, doubleIndex, tripleIndex := b[4 + NumDirect], b[5 + NumDirect], b[6 + NumDirect];
      assert dataSectors[..] == b[4..4 + NumDirect];
    }

    /** FileHeader::WriteBack. */
    method WriteBack(disk: SynchDisk, sector: int)
      requires Valid() && disk.Valid() && InRange(sector)
      modifies disk
      ensures disk.Valid()
      ensures disk.blocks == old(disk.blocks)[sector := Encode(View())]
    {
      disk.WriteSector(sector, Encode(View()));
    }

    /** FileHeader::ByteToSector. */
    function ByteToSector(disk: SynchDisk, offset: int): Lookup
      reads this, dataSectors, disk
      requires Valid() && disk.Valid()
    {
      SectorAt(View(), disk.blocks, VirtualIndex(offset))
    }

    /** The single-indirect branch of ByteToINodeSector for slot k, with
        the deletion of its sinode object. */
    method LocateSingle(disk: SynchDisk, freeMap: BitMap, k: nat) returns (r: Outcome<int>)
      requires Valid() && disk.Valid() && |freeMap.bits| == NumSectors && k < MaxSingleSize
      modifies this, disk, freeMap
      ensures Valid() && disk.Valid() && dataSectors == old(dataSectors) && |freeMap.bits| == NumSectors
      ensures Answers(r, INodeSingle(old(Vol(View(), disk.blocks, freeMap.bits)), k), Vol(View(), disk.blocks, freeMap.bits))
    {
      var sinode := new Inode();
      if singleIndex < 0 {
        singleIndex := freeMap.Find();
      } else {
        if !InRange(singleIndex) {
          return Halted;
        }
        sinode.FetchFrom(disk, singleIndex);
      }
      var sector := sinode.Find(freeMap, k);
      if !InRange(singleIndex) {
        return Halted;
      }
      sinode.WriteBack(disk, singleIndex);
      if !sinode.Intact() {
        return Halted;
      }
      return Done(sector);
    }

    /** The double-indirect branch of ByteToINodeSector for slot k of
        sub-block j. */
    method LocateDouble(disk: SynchDisk, freeMap: BitMap, j: nat, k: nat) returns (r: Outcome<int>)
      requires Valid() && disk.Valid() && |freeMap.bits| == NumSectors && j < MaxSingleSize && k < MaxSingleSize
      modifies this, disk, freeMap
      ensures Valid() && disk.Valid() && dataSectors == old(dataSectors) && |freeMap.bits| == NumSectors
      ensures Answers(r, INodeDouble(old(Vol(View(), disk.blocks, freeMap.bits)), j, k), Vol(View(), disk.blocks, freeMap.bits))
    {
      var dinode := new Inode();
      if doubleIndex < 0 {
        doubleIndex := freeMap.Find();
      } else {
        if !InRange(doubleIndex) {
          return Halted;
        }
        dinode.FetchFrom(disk, doubleIndex);
      }
      r := LocateDoubleSub(disk, freeMap, dinode, j, k);
    }

    /** The rest of that branch, once dinode holds the top block, with the
        deletion of the sinode and dinode objects. */
    method LocateDoubleSub(disk: SynchDisk, freeMap: BitMap, dinode: Inode, j: nat, k: nat) returns (r: Outcome<int>)
      requires Valid() && disk.Valid() && |freeMap.bits| == NumSectors && dinode.Valid()
      requires j < MaxSingleSize && k < MaxSingleSize && dinode.subNode != dataSectors
      modifies disk, freeMap, dinode.subNode
      ensures disk.Valid() && |freeMap.bits| == NumSectors
      ensures Answers(r, INodeDoubleSub(old(Vol(View(), disk.blocks, freeMap.bits)), old(dinode.View()), j, k), Vol(View(), disk.blocks, freeMap.bits))
    {
      var sinode := new Inode();
      var ss := dinode.Find(freeMap, j);
      if !InRange(ss) {
        return Halted;
      }
      sinode.FetchFrom(disk, ss);
      var sector := sinode.Find(freeMap, k);
      if !InRange(doubleIndex) {
        return Halted;
      }
      dinode.WriteBack(disk, doubleIndex);
      sinode.WriteBack(disk, ss);
      if !dinode.Intact() || !sinode.Intact() {
        return Halted;
      }
      return Done(sector);
    }

    /** FileHeader::ByteToINodeSector: the bitmap is read from the bitmap file
        and written back to it, except for direct-tier offsets. */
    method ByteToINodeSector(disk: SynchDisk, freeMapFile: BitMap, offset: int) returns (r: Outcome<int>)
      requires Valid() && disk.Valid() && |freeMapFile.bits| == NumSectors
      modifies this, disk, freeMapFile
      ensures Valid() && disk.Valid() && dataSectors == old(dataSectors)
      ensures Answers(r, INodeSector(old(Vol(View(), disk.blocks, freeMapFile.bits)), VirtualIndex(offset)), Vol(View(), disk.blocks, freeMapFile.bits))
    {
      var v := VirtualIndex(offset);
      ghost var st := old(Vol(View(), disk.blocks, freeMapFile.bits));
      if SizeLess(v, NumDirect) {
        INodeDirect(st, v);
        return Done(dataSectors[v]);
      }
      var currentFreeMap := new BitMap(NumSectors);
      currentFreeMap.FetchFrom(freeMapFile);
      assert Vol(View(), disk.blocks, currentFreeMap.bits) == st;
      if SizeLess(v, NumDirect + MaxSingleSize) {
        INodeSectorSingle(st, v);
        r := LocateSingle(disk, currentFreeMap, v - NumDirect);
        assert Answers(r, INodeSector(st, v), Vol(View(), disk.blocks, currentFreeMap.bits));
      } else if SizeLess(v, NumDirect + MaxSingleSize + MaxDoubleSize) {
        var w := v - NumDirect - MaxSingleSize;
        var j, k := w / MaxSingleSize, w % MaxSingleSize;
        INodeSectorDouble(st, v, j, k);
        r := LocateDouble(disk, currentFreeMap, j, k);
        assert Answers(r, INodeSector(st, v), Vol(View(), disk.blocks, currentFreeMap.bits));
      } else if SizeLess(v, NumDirect + MaxSingleSize + MaxDoubleSize + MaxTripleSize) {
        INodeSectorTriple(st, v);
        return Unmodelled;
      } else {
        INodeBeyond(st, v);
        r := Done(Absent);
      }
      if r.Done? {
        currentFreeMap.WriteBack(freeMapFile);
      }
    }

    /** FileHeader::FileLength. */
    function FileLength(): int
      reads this
    {
      numBytes
    }

    /** FileHeader::IncFileLength. */
    method IncFileLength(bytesToAdd: int, sectorsToAdd: int)
      requires Valid()
      modifies this
      ensures Valid() && dataSectors == old(dataSectors)
      ensures FileLength() == old(FileLength()) + bytesToAdd
      ensures View() == old(View()).(numBytes := old(numBytes) + bytesToAdd, numSectors := old(numSectors) + sectorsToAdd)
    {
      numBytes := numBytes + bytesToAdd;
      numSectors := numSectors + sectorsToAdd;
    }

    /** FileHeader::DecFileLength: the source ASSERTs the counts do not go below zero. */
    method DecFileLength(bytesToDel: int, sectorsToDel: int)
      requires Valid() && bytesToDel <= numBytes && sectorsToDel <= numSectors
      modifies this
      ensures Valid() && dataSectors == old(dataSectors)
      ensures FileLength() == old(FileLength()) - bytesToDel && FileLength() >= 0
      ensures View() == old(View()).(numBytes := old(numBytes) - bytesToDel, numSectors := old(numSectors) - sectorsToDel)
    {
      numBytes := numBytes - bytesToDel;
      numSectors := numSectors - sectorsToDel;
    }
  }
}
