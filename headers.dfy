/** The file header of code/filesys/filehdr.h as a value, its on-disk
    encoding, the lookup ByteToSector performs, and the invariant that keeps
    the index blocks reachable from a header apart from each other. */
module Headers {
  import opened Geometry
  import opened Disk
  import opened BitMaps
  import opened Inodes
  import opened Tiers

  /** The fields FileHeader writes to its sector, in their declared order. */
  datatype Hdr = Hdr(numBytes: int, numSectors: int, fileType: int, parentSector: int,
                     dataSectors: seq<int>, singleIndex: int, doubleIndex: int, tripleIndex: int)

  predicate WellFormed(h: Hdr)
  {
    |h.dataSectors| == NumDirect
  }

  /** FileHeader::FileHeader: no bytes, no sectors, no type, no parent, every pointer absent. */
  function EmptyHdr(): (h: Hdr)
    ensures WellFormed(h)
  {
    Hdr(0, 0, -1, -1, seq(NumDirect, _ => Absent), Absent, Absent, Absent)
  }

  /** The sector image WriteBack produces. */
  function Encode(h: Hdr): (b: Block)
    requires WellFormed(h)
    ensures IsBlock(b)
  {
    [h.numBytes, h.numSectors, h.fileType, h.parentSector] + h.dataSectors +
    [h.singleIndex, h.doubleIndex, h.tripleIndex]
  }

  /** The header FetchFrom reads back from a sector image. */
  function Decode(b: Block): (h: Hdr)
    requires IsBlock(b)
    ensures WellFormed(h)
  {
    Hdr(b[0], b[1], b[2], b[3], b[4..4 + NumDirect],
        b[4 + NumDirect], b[5 + NumDirect], b[6 + NumDirect])
  }

  lemma DecodeEncode(h: Hdr)
    requires WellFormed(h)
    ensures Decode(Encode(h)) == h
  {
    assert Encode(h)[4..4 + NumDirect] == h.dataSectors;
  }

  lemma EncodeDecode(b: Block)
    requires IsBlock(b)
    ensures Encode(Decode(b)) == b
  {
    assert Encode(Decode(b)) == b[..4] + b[4..4 + NumDirect] + b[4 + NumDirect..];
  }

  /** A header together with the disk and the free-sector bitmap it lives with. */
  datatype Vol = Vol(hdr: Hdr, disk: seq<Block>, bits: seq<bool>)

  predicate VolOk(st: Vol)
  {
    WellFormed(st.hdr) && IsDisk(st.disk) && |st.bits| == NumSectors
  }

  /** The answer of ByteToSector: a sector number (-1 for an unused direct
      slot or an index past the last tier), or Fault when one of its
      assertions, or the disk's range assertion, fails. */
  datatype Lookup = Sector(sector: int) | Fault

  /** offset / SectorSize in C, which truncates toward zero. */
  function VirtualIndex(offset: int): (v: int)
    ensures offset >= 0 ==> v >= 0 && v * SectorSize <= offset < (v + 1) * SectorSize
    ensures -(SectorSize as int) < offset < 0 ==> v == 0
    ensures offset <= -(SectorSize as int) ==> v < 0
  {
    CDiv(offset, SectorSize)
  }

  /** The byte offset of the start of sector i lies in virtual index i. */
  lemma VirtualIndexOfSector(i: nat)
    ensures VirtualIndex(i * SectorSize) == i
  {
    var v := VirtualIndex(i * SectorSize);
    assert v * SectorSize <= i * SectorSize < (v + 1) * SectorSize;
  }

  /** The sector ByteToSector names for virtual index v. Each tier's index
      blocks are read into fresh inode objects, so a slot is Slot of its
      sector image, and the objects are deleted at the end, which needs a
      genuine vptr in every image read. A negative v fails every tier test,
      which compares with a size_t bound (SizeLess), so it gets -1 as an
      index past the last tier does. In the triple tier the source fetches the double-indirect block
      a second time where it means the single-indirect one, and this lookup
      does the same. */
  function SectorAt(h: Hdr, disk: seq<Block>, v: int): Lookup
    requires WellFormed(h) && IsDisk(disk)
  {
    if v < 0 then Sector(Absent)
    else match Classify(v)
      case Direct(i) => Sector(h.dataSectors[i])
      case Single(i) =>
        if h.singleIndex < 0 || !InRange(h.singleIndex) then Fault
        else
          var b := disk[h.singleIndex];
          if ReadSlot(b, i) == Absent || !Genuine(b) then Fault
          else Sector(ReadSlot(b, i))
      case Double(j, i) =>
        if h.doubleIndex < 0 || h.singleIndex < 0 || !InRange(h.doubleIndex) then Fault
        else
          var top := disk[h.doubleIndex];
          var sub := ReadSlot(top, j);
          if sub == Absent || !InRange(sub) then Fault
          else if ReadSlot(disk[sub], i) == Absent || !Genuine(disk[sub]) || !Genuine(top) then Fault
          else Sector(ReadSlot(disk[sub], i))
      case Triple(t, j, i) =>
        if h.tripleIndex < 0 || h.doubleIndex < 0 || h.singleIndex < 0 || !InRange(h.tripleIndex) then Fault
        else
          var top := disk[h.tripleIndex];
          var dbl := ReadSlot(top, t);
          if dbl == Absent || !InRange(dbl) then Fault
          else if ReadSlot(disk[dbl], j) == Absent || ReadSlot(disk[dbl], i) == Absent then Fault
          else if !Genuine(disk[dbl]) || !Genuine(top) then Fault
          else Sector(ReadSlot(disk[dbl], i))
      case Beyond => Sector(Absent)
  }

  /** The indices whose slots, and the index-block slots leading to them,
      are all among the StoredSlots that a sector image carries. */
  predicate Persisted(v: int)
  {
    v >= 0 &&
    match Classify(v)
    case Direct(_) => true
    case Single(i) => i < StoredSlots
    case Double(j, i) => j < StoredSlots && i < StoredSlots
    case Triple(t, j, i) => t < StoredSlots && j < StoredSlots && i < StoredSlots
    case Beyond => false
  }

  /** Whatever the disk holds, an index of an indirection tier that is not
      persisted faults: the fresh object reading its index block still holds
      -1 in the slot the image does not reach. */
  lemma LostLookupFaults(h: Hdr, disk: seq<Block>, v: int)
    requires WellFormed(h) && IsDisk(disk) && 0 <= v < TierEnd && !Persisted(v)
    ensures SectorAt(h, disk, v) == Fault
  {
    ClassifyPosition(v);
  }

  /** The triple tier's defect: the lookup never reads the single-indirect
      block that the double-indirect block's slot names. Whatever that
      block holds, the answer is the stored word of the double-indirect
      block itself at the data slot's index, or a fault. */
  lemma TripleLookupSkipsSubBlock(h: Hdr, disk: seq<Block>, v: nat, b: Block)
    requires WellFormed(h) && IsDisk(disk) && IsBlock(b) && TripleStart <= v < TierEnd
    requires h.singleIndex >= 0 && h.doubleIndex >= 0 && InRange(h.tripleIndex)
    requires var t := Classify(v);
      t.Triple? && t.top < SlotsPerBlock && t.block < SlotsPerBlock &&
      InRange(ReadSlot(disk[h.tripleIndex], t.top)) &&
      InRange(ReadSlot(disk[ReadSlot(disk[h.tripleIndex], t.top)], t.block)) &&
      ReadSlot(disk[ReadSlot(disk[h.tripleIndex], t.top)], t.block) != ReadSlot(disk[h.tripleIndex], t.top) &&
      ReadSlot(disk[ReadSlot(disk[h.tripleIndex], t.top)], t.block) != h.tripleIndex
    ensures var t := Classify(v);
      var dbl := ReadSlot(disk[h.tripleIndex], t.top);
      var sub := ReadSlot(disk[dbl], t.block);
      SectorAt(h, disk[sub := b], v) == SectorAt(h, disk, v) &&
      (SectorAt(h, disk, v).Sector? ==> SectorAt(h, disk, v).sector == ReadSlot(disk[dbl], t.index))
  {
    ClassifyPosition(v);
  }

  /** The lookup names a real sector. */
  predicate Filled(st: Vol, v: int)
    requires VolOk(st)
  {
    var l := SectorAt(st.hdr, st.disk, v); l.Sector? && l.sector != Absent
  }

  /** The index blocks a header can reach: its three tier pointers and the
      populated stored slots of its double- and triple-indirect top blocks. */
  datatype Role = SingleRole | DoubleRole | DoubleSub(j: nat) | TripleRole | TripleSub(t: nat)

  predicate ValidRole(r: Role)
  {
    match r
    case DoubleSub(j) => j < SlotsPerBlock
    case TripleSub(t) => t < SlotsPerBlock
    case _ => true
  }

  /** The sector holding the index block of role r, or Absent. */
  function RoleSector(h: Hdr, disk: seq<Block>, r: Role): int
    requires IsDisk(disk) && ValidRole(r)
  {
    match r
    case SingleRole => h.singleIndex
    case DoubleRole => h.doubleIndex
    case DoubleSub(j) => if InRange(h.doubleIndex) then ReadSlot(disk[h.doubleIndex], j) else Absent
    case TripleRole => h.tripleIndex
    case TripleSub(t) => if InRange(h.tripleIndex) then ReadSlot(disk[h.tripleIndex], t) else Absent
  }

  /** Every reachable index block lies on the disk, is marked in the bitmap,
      holds a genuine vptr, and no two roles share a sector. */
  ghost predicate Consistent(st: Vol)
    requires VolOk(st)
  {
    (forall r :: ValidRole(r) && RoleSector(st.hdr, st.disk, r) != Absent ==>
       InRange(RoleSector(st.hdr, st.disk, r)) && st.bits[RoleSector(st.hdr, st.disk, r)] &&
       Genuine(st.disk[RoleSector(st.hdr, st.disk, r)])) &&
    (forall r1, r2 :: ValidRole(r1) && ValidRole(r2) && r1 != r2 && RoleSector(st.hdr, st.disk, r1) != Absent ==>
       RoleSector(st.hdr, st.disk, r1) != RoleSector(st.hdr, st.disk, r2))
  }

  /** The tier pointers are set in the order Append draws them: a
      double-indirect block only with a single-indirect one, a
      triple-indirect block only with a double-indirect one. */
  predicate Ordered(h: Hdr)
  {
    (h.doubleIndex != Absent ==> h.singleIndex != Absent) &&
    (h.tripleIndex != Absent ==> h.doubleIndex != Absent)
  }

  /** The data sectors are the header's own: the tier pointers are ordered,
      and every index whose lookup names a sector names one that lies on
      the disk, is marked, and is named by no other index and by no role. */
  ghost predicate DataOk(st: Vol)
    requires VolOk(st)
  {
    Ordered(st.hdr) &&
    (forall u :: Filled(st, u) ==>
       InRange(SectorAt(st.hdr, st.disk, u).sector) && st.bits[SectorAt(st.hdr, st.disk, u).sector]) &&
    (forall u, w :: u != w && Filled(st, u) && Filled(st, w) ==>
       SectorAt(st.hdr, st.disk, u) != SectorAt(st.hdr, st.disk, w)) &&
    (forall u, rl :: Filled(st, u) && ValidRole(rl) ==>
       SectorAt(st.hdr, st.disk, u).sector != RoleSector(st.hdr, st.disk, rl))
  }

  /** A header without index blocks is consistent with any disk and bitmap. */
  lemma NoIndexConsistent(st: Vol)
    requires VolOk(st)
    requires st.hdr.singleIndex == Absent && st.hdr.doubleIndex == Absent && st.hdr.tripleIndex == Absent
    ensures Consistent(st)
  {
  }

  /** The lookup of a virtual index depends on its own direct slot, the tier
      pointers and the blocks they reach, and on nothing else. */
  lemma SectorAtFrame(h: Hdr, h': Hdr, disk: seq<Block>, v: int)
    requires WellFormed(h) && WellFormed(h') && IsDisk(disk)
    requires h'.singleIndex == h.singleIndex && h'.doubleIndex == h.doubleIndex && h'.tripleIndex == h.tripleIndex
    requires 0 <= v < NumDirect ==> h'.dataSectors[v] == h.dataSectors[v]
    ensures SectorAt(h', disk, v) == SectorAt(h, disk, v)
  {
  }
}
