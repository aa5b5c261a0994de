/** FileHeader::Allocate and FileHeader::Deallocate (code/filesys/filehdr.cc:60-121
    and 233-249) as functions on a header and the free-sector bitmap. */
module Allocation {
  import opened Geometry
  import opened Disk
  import opened BitMaps
  import opened Headers
  import opened Wrappers

  /** Whether Allocate succeeded, and the header and bitmap afterwards. */
  datatype Allocated = Allocated(ok: bool, hdr: Hdr, bits: seq<bool>)

  /** The byte and sector counts Allocate gives a file of this type. */
  function InitialBytes(fileType: int): int
  {
    if fileType == TypeDir || fileType == TypeNormal then 0
    else if fileType == TypeDiskBitmap then FreeMapFileSize
    else SectorSize
  }

  function InitialSectors(fileType: int): int
  {
    if fileType == TypeDir || fileType == TypeNormal then 0
    else if fileType == TypeDiskBitmap then DivRoundUp(FreeMapFileSize, SectorSize)
    else NumDirect
  }

  /** Allocate sets the type, the parent, the counts and the tier pointers
      whatever the outcome; it fails when fewer sectors are free than the
      counts claim; on success the bitmap file gets its one sector, and
      normal files and directories get every direct slot absent. Any other
      type keeps whatever direct slots the header held. */
  function AllocateSpec(h: Hdr, bits: seq<bool>, fileType: int, parentSector: int): (a: Allocated)
    requires WellFormed(h)
    ensures WellFormed(a.hdr) && |a.bits| == |bits|
    ensures a.ok <==> CountClear(bits) >= InitialSectors(fileType)
    ensures a.hdr.fileType == fileType && a.hdr.parentSector == parentSector
    ensures a.hdr.numBytes == InitialBytes(fileType) && a.hdr.numSectors == InitialSectors(fileType)
    ensures a.hdr.singleIndex == Absent && a.hdr.doubleIndex == Absent && a.hdr.tripleIndex == Absent
    ensures !a.ok ==> a.hdr.dataSectors == h.dataSectors && a.bits == bits
  {
    var h1 := h.(fileType := fileType, parentSector := parentSector,
                 numBytes := InitialBytes(fileType), numSectors := InitialSectors(fileType),
                 singleIndex := Absent, doubleIndex := Absent, tripleIndex := Absent);
    if CountClear(bits) < InitialSectors(fileType) then Allocated(false, h1, bits)
    else if fileType == TypeDiskBitmap then
      var g := Granted(bits);
      Allocated(true, h1.(dataSectors := [g.sector] + seq(NumDirect - 1, _ => Absent)), g.bits)
    else if fileType == TypeNormal || fileType == TypeDir then
      Allocated(true, h1.(dataSectors := seq(NumDirect, _ => Absent)), bits)
    else Allocated(true, h1, bits)
  }

  /** Directories and normal files start empty, draw nothing, and their
      byte count rounds up to their sector count. */
  lemma AllocateEmpty(h: Hdr, bits: seq<bool>, fileType: int, parentSector: int)
    requires WellFormed(h) && (fileType == TypeDir || fileType == TypeNormal)
    ensures var a := AllocateSpec(h, bits, fileType, parentSector);
      a.ok && a.bits == bits && a.hdr.numBytes == 0 && a.hdr.numSectors == 0 &&
      (forall i :: 0 <= i < NumDirect ==> a.hdr.dataSectors[i] == Absent) &&
      CDivRoundUp(a.hdr.numBytes, SectorSize) == a.hdr.numSectors
  {
  }

  /** The bitmap file's header, on a map with a free sector, owns the lowest
      free sector as its one data sector and marks it. */
  lemma AllocateBitmap(h: Hdr, bits: seq<bool>, parentSector: int)
    requires WellFormed(h) && CountClear(bits) >= 1
    ensures var a := AllocateSpec(h, bits, TypeDiskBitmap, parentSector);
      var s := a.hdr.dataSectors[0];
      a.ok && s == FirstClear(bits) && 0 <= s < |bits| && !bits[s] && a.bits == bits[s := true] &&
      (forall i :: 1 <= i < NumDirect ==> a.hdr.dataSectors[i] == Absent) &&
      CDivRoundUp(a.hdr.numBytes, SectorSize) == a.hdr.numSectors
  {
    OneSectorFiles();
    var s := FirstClear(bits);
    assert s != -1 && Granted(bits) == Grant(s, bits[s := true]);
    OneSlotFilled(s);
    assert AllocateSpec(h, bits, TypeDiskBitmap, parentSector).hdr.dataSectors == [s] + seq(NumDirect - 1, _ => Absent);
  }

  /** Direct slots holding one sector and then only absent slots. */
  lemma OneSlotFilled(s: int)
    ensures var d := [s] + seq(NumDirect - 1, _ => Absent);
      |d| == NumDirect && d[0] == s && forall i :: 1 <= i < NumDirect ==> d[i] == Absent
  {
  }

  /** Any other type claims a sector's worth of bytes and NumDirect sectors
      but draws none of them, and its counts disagree, so a later Append on
      it cannot pass its closing ASSERT. */
  lemma AllocateOtherUnsized(h: Hdr, bits: seq<bool>, fileType: int, parentSector: int)
    requires WellFormed(h)
    requires fileType != TypeDir && fileType != TypeNormal && fileType != TypeDiskBitmap
    ensures var a := AllocateSpec(h, bits, fileType, parentSector);
      a.bits == bits && a.hdr.dataSectors == h.dataSectors &&
      CDivRoundUp(a.hdr.numBytes, SectorSize) != a.hdr.numSectors
  {
    OneSectorFiles();
  }

  /** A header as FileHeader::FileHeader builds it names no sector and
      reaches no index block, whatever the disk and the bitmap hold. */
  lemma EmptyHdrOwned(disk: seq<Block>, bits: seq<bool>)
    requires IsDisk(disk) && |bits| == NumSectors
    ensures Consistent(Vol(EmptyHdr(), disk, bits)) && DataOk(Vol(EmptyHdr(), disk, bits))
    ensures forall u :: !Filled(Vol(EmptyHdr(), disk, bits), u)
  {
    NoIndexConsistent(Vol(EmptyHdr(), disk, bits));
  }

  /** Allocate keeps the header's data sectors its own: it drops every
      tier pointer, and what it keeps or draws of the direct slots is marked
      and named once. With a free sector the bitmap file's header needs
      nothing of the header it overwrites. */
  lemma AllocateKeepsData(h: Hdr, disk: seq<Block>, bits: seq<bool>, fileType: int, parentSector: int)
    requires VolOk(Vol(h, disk, bits))
    requires !(fileType == TypeDiskBitmap && CountClear(bits) >= 1) ==> DataOk(Vol(h, disk, bits))
    ensures var a := AllocateSpec(h, bits, fileType, parentSector);
      VolOk(Vol(a.hdr, disk, a.bits)) && Consistent(Vol(a.hdr, disk, a.bits)) && DataOk(Vol(a.hdr, disk, a.bits))
  {
    var st := Vol(h, disk, bits);
    var a := AllocateSpec(h, bits, fileType, parentSector);
    var st' := Vol(a.hdr, disk, a.bits);
    NoIndexConsistent(st');
    assert forall u :: Filled(st', u) ==> 0 <= u < NumDirect && SectorAt(a.hdr, disk, u) == Sector(a.hdr.dataSectors[u]);
    if fileType == TypeDiskBitmap && CountClear(bits) >= 1 {
      AllocateBitmap(h, bits, parentSector);
      forall u | Filled(st', u) ensures u == 0 {
        assert a.hdr.dataSectors[u] != Absent;
      }
    } else if a.ok && (fileType == TypeNormal || fileType == TypeDir) {
      AllocateEmpty(h, bits, fileType, parentSector);
    } else {
      assert a.hdr.dataSectors == h.dataSectors && a.bits == bits;
      forall u | Filled(st', u) ensures SectorAt(a.hdr, disk, u) == SectorAt(h, disk, u) {
      }
    }
  }

  // ---------------------------------------------------------------------
  // Deallocate.

  /** The sectors ByteToSector names for the indices 0 .. n-1, or None when
      one of those lookups faults. */
  function DataSectors(h: Hdr, disk: seq<Block>, n: nat): (r: Option<seq<int>>)
    requires WellFormed(h) && IsDisk(disk)
    ensures r.Some? ==> |r.value| == n
  {
    if n == 0 then Some([])
    else match DataSectors(h, disk, n - 1)
      case None => None
      case Some(l) =>
        match SectorAt(h, disk, n - 1)
        case Fault => None
        case Sector(s) => Some(l + [s])
  }

  /** The i-th listed sector is the answer of the lookup of index i. */
  lemma {:induction false} DataSectorsAt(h: Hdr, disk: seq<Block>, n: nat, i: nat)
    requires WellFormed(h) && IsDisk(disk) && DataSectors(h, disk, n).Some? && i < n
    ensures SectorAt(h, disk, i) == Sector(DataSectors(h, disk, n).value[i])
    decreases n
  {
    if i < n - 1 {
      DataSectorsAt(h, disk, n - 1, i);
    }
  }

  /** When none of the first n lookups faults, the list exists. */
  lemma {:induction false} DataSectorsSome(h: Hdr, disk: seq<Block>, n: nat)
    requires WellFormed(h) && IsDisk(disk)
    requires forall u :: 0 <= u < n ==> SectorAt(h, disk, u).Sector?
    ensures DataSectors(h, disk, n).Some?
    decreases n
  {
    if n > 0 {
      DataSectorsSome(h, disk, n - 1);
    }
  }

  /** Every listed sector is on the disk, marked, and listed once. */
  ghost predicate Releasable(bits: seq<bool>, l: seq<int>)
  {
    (forall i :: 0 <= i < |l| ==> 0 <= l[i] < |bits| && bits[l[i]]) &&
    (forall i, j :: 0 <= i < j < |l| ==> l[i] != l[j])
  }

  /** The bitmap after Deallocate's loop has run Test on and cleared the sectors
      of indices 0 .. n-1; None when a test's ASSERT fails. */
  function FreedBits(h: Hdr, disk: seq<Block>, bits: seq<bool>, n: nat): (r: Option<seq<bool>>)
    requires WellFormed(h) && IsDisk(disk)
    ensures r.Some? ==> |r.value| == |bits|
  {
    if n == 0 then Some(bits)
    else match FreedBits(h, disk, bits, n - 1)
      case None => None
      case Some(b) =>
        match SectorAt(h, disk, n - 1)
        case Fault => None
        case Sector(s) => if 0 <= s < |b| && b[s] then Some(b[s := false]) else None
  }

  /** One more iteration of Deallocate's loop, whose lookup for index n is
      l: the sector is tested and cleared, or the test's ASSERT fails. */
  lemma FreedBitsNext(h: Hdr, disk: seq<Block>, bits: seq<bool>, n: nat, b: seq<bool>, l: Lookup)
    requires WellFormed(h) && IsDisk(disk) && FreedBits(h, disk, bits, n) == Some(b)
    requires l == SectorAt(h, disk, n)
    ensures l.Sector? && 0 <= l.sector < |b| && b[l.sector] ==>
      FreedBits(h, disk, bits, n + 1) == Some(b[l.sector := false])
    ensures !(l.Sector? && 0 <= l.sector < |b| && b[l.sector]) ==>
      FreedBits(h, disk, bits, n + 1) == None
  {
  }

  /** Once a test fails, every longer run fails. */
  lemma {:induction false} FreedBitsStuck(h: Hdr, disk: seq<Block>, bits: seq<bool>, k: nat, n: nat)
    requires WellFormed(h) && IsDisk(disk) && k <= n && FreedBits(h, disk, bits, k).None?
    ensures FreedBits(h, disk, bits, n).None?
    decreases n
  {
    if n > k {
      FreedBitsStuck(h, disk, bits, k, n - 1);
    }
  }

  /** The loop completes exactly when the first n lookups answer with
      distinct marked sectors; it then clears exactly those and frees n sectors. */
  lemma {:induction false} FreedBitsSpec(h: Hdr, disk: seq<Block>, bits: seq<bool>, n: nat)
    requires WellFormed(h) && IsDisk(disk)
    ensures var l := DataSectors(h, disk, n);
      FreedBits(h, disk, bits, n).Some? <==> l.Some? && Releasable(bits, l.value)
    ensures FreedBits(h, disk, bits, n).Some? ==>
      var b := FreedBits(h, disk, bits, n).value;
      var l := DataSectors(h, disk, n).value;
      (forall x :: 0 <= x < |bits| ==> b[x] == (bits[x] && x !in l)) &&
      CountClear(b) == CountClear(bits) + n
    decreases n
  {
    if n > 0 {
      FreedBitsSpec(h, disk, bits, n - 1);
      var prev := FreedBits(h, disk, bits, n - 1);
      var pl := DataSectors(h, disk, n - 1);
      match SectorAt(h, disk, n - 1)
      case Fault =>
      case Sector(s) =>
        if pl.Some? {
          assert DataSectors(h, disk, n) == Some(pl.value + [s]);
          if prev.Some? {
            ReleaseStep(bits, pl.value, prev.value, s);
          } else if Releasable(bits, pl.value + [s]) {
            ReleasablePrefix(bits, pl.value, s);
          }
        }
    }
  }

  /** One more test and clear: it passes exactly when the longer list is
      still releasable, and then clears just the one more sector. */
  lemma ReleaseStep(bits: seq<bool>, l: seq<int>, b: seq<bool>, s: int)
    requires Releasable(bits, l) && |b| == |bits|
    requires forall x :: 0 <= x < |bits| ==> b[x] == (bits[x] && x !in l)
    ensures (0 <= s < |b| && b[s]) <==> Releasable(bits, l + [s])
    ensures 0 <= s < |b| && b[s] ==>
      (forall x :: 0 <= x < |bits| ==> b[s := false][x] == (bits[x] && x !in l + [s])) &&
      CountClear(b[s := false]) == CountClear(b) + 1
  {
    var l' := l + [s];
    assert (0 <= s < |b| && b[s]) <==> (0 <= s < |bits| && bits[s] && s !in l);
    if 0 <= s < |b| && b[s] {
      ClearFreesOne(b, s);
      forall i, j | 0 <= i < j < |l'| ensures l'[i] != l'[j] {
        if j == |l'| - 1 {
          assert l'[i] in l;
        }
      }
    } else if 0 <= s < |bits| && bits[s] {
      var i :| 0 <= i < |l| && l[i] == s;
      assert l'[i] == l'[|l'| - 1];
    } else {
      assert l'[|l'| - 1] == s;
    }
  }

  /** Dropping the last sector keeps a list releasable. */
  lemma ReleasablePrefix(bits: seq<bool>, l: seq<int>, s: int)
    requires Releasable(bits, l + [s])
    ensures Releasable(bits, l)
  {
    var l' := l + [s];
    forall i | 0 <= i < |l| ensures 0 <= l[i] < |bits| && bits[l[i]] {
      assert l[i] == l'[i];
    }
    forall i, j | 0 <= i < j < |l| ensures l[i] != l[j] {
      assert l[i] == l'[i] && l[j] == l'[j];
    }
  }

  /** The header Deallocate leaves: the direct slots of the indices it
      visited absent, every other direct slot as it was, no tier pointer,
      no bytes, no sectors. */
  function ReleasedHdr(h: Hdr): (r: Hdr)
    requires WellFormed(h)
    ensures WellFormed(r)
  {
    h.(dataSectors := seq(NumDirect, i requires 0 <= i < NumDirect => if i < h.numSectors then Absent else h.dataSectors[i]),
       singleIndex := Absent, doubleIndex := Absent, tripleIndex := Absent,
       numSectors := 0, numBytes := 0)
  }

  /** The iterations of Deallocate's loop over i from 0 while i < numSectors:
      none for a negative count. */
  function ReleaseCount(h: Hdr): nat
  {
    if h.numSectors < 0 then 0 else h.numSectors
  }

  /** FileHeader::Deallocate against the bitmap: Halted when a sector it
      visits is not marked, or a lookup faults. */
  function Released(st: Vol): (r: Outcome<Vol>)
    requires VolOk(st)
    ensures r.Done? ==> VolOk(r.value)
  {
    match FreedBits(st.hdr, st.disk, st.bits, ReleaseCount(st.hdr))
    case None => Halted
    case Some(b) => Done(Vol(ReleasedHdr(st.hdr), st.disk, b))
  }

  /** Deallocate succeeds exactly when the file's numSectors lookups (none
      for a negative count) name distinct marked sectors; it then clears
      exactly those bits, so index blocks that are not data sectors stay
      marked, and the emptied header has no index blocks left. */
  lemma ReleasedSpec(st: Vol)
    requires VolOk(st)
    ensures var l := DataSectors(st.hdr, st.disk, ReleaseCount(st.hdr));
      Released(st).Done? <==> l.Some? && Releasable(st.bits, l.value)
    ensures Released(st).Done? ==>
      var st' := Released(st).value;
      var l := DataSectors(st.hdr, st.disk, ReleaseCount(st.hdr)).value;
      (forall x :: 0 <= x < NumSectors ==> st'.bits[x] == (st.bits[x] && x !in l)) &&
      CountClear(st'.bits) == CountClear(st.bits) + ReleaseCount(st.hdr) &&
      st'.disk == st.disk && Consistent(st') &&
      st'.hdr.numBytes == 0 && st'.hdr.numSectors == 0
  {
    FreedBitsSpec(st.hdr, st.disk, st.bits, ReleaseCount(st.hdr));
    if Released(st).Done? {
      NoIndexConsistent(Released(st).value);
    }
  }

  /** Under the data-sector invariant no index block is among the sectors
      Deallocate clears: every index block the header reaches stays marked. */
  lemma ReleasedKeepsIndexBlocks(st: Vol)
    requires VolOk(st) && Consistent(st) && DataOk(st)
    requires Released(st).Done?
    ensures forall rl :: ValidRole(rl) && RoleSector(st.hdr, st.disk, rl) != Absent ==>
      Released(st).value.bits[RoleSector(st.hdr, st.disk, rl)]
  {
    ReleasedSpec(st);
    var l := DataSectors(st.hdr, st.disk, ReleaseCount(st.hdr)).value;
    forall rl | ValidRole(rl) && RoleSector(st.hdr, st.disk, rl) != Absent
      ensures Released(st).value.bits[RoleSector(st.hdr, st.disk, rl)]
    {
      var x := RoleSector(st.hdr, st.disk, rl);
      forall i | 0 <= i < |l| ensures l[i] != x {
        DataSectorsAt(st.hdr, st.disk, ReleaseCount(st.hdr), i);
        if l[i] == x {
          assert Filled(st, i);
        }
      }
    }
  }

  /** Conversely, a header whose first numSectors lookups all name sectors
      of its own, under the data-sector invariant, is deallocated without
      a failed test. */
  lemma ReleasedWhenOwned(st: Vol)
    requires VolOk(st) && DataOk(st)
    requires forall u :: 0 <= u < st.hdr.numSectors ==> Filled(st, u)
    ensures Released(st).Done?
  {
    var n := ReleaseCount(st.hdr);
    DataSectorsSome(st.hdr, st.disk, n);
    var l := DataSectors(st.hdr, st.disk, n).value;
    forall i | 0 <= i < |l| ensures 0 <= l[i] < |st.bits| && st.bits[l[i]] {
      DataSectorsAt(st.hdr, st.disk, n, i);
      assert Filled(st, i);
    }
    forall i, j | 0 <= i < j < |l| ensures l[i] != l[j] {
      DataSectorsAt(st.hdr, st.disk, n, i);
      DataSectorsAt(st.hdr, st.disk, n, j);
      assert Filled(st, i) && Filled(st, j);
    }
    ReleasedSpec(st);
  }
}
