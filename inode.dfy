/** One index block (class `inode` of code/filesys/inode.cc): a sector-sized
    array of sector pointers, the building block of the indirection tiers. */
module Inodes {
  import opened Geometry
  import opened Disk
  import opened BitMaps

  // The layout of an inode object. `inode` declares a virtual destructor
  // (inode.h:18), so every object starts with a pointer to its class's
  // virtual table (the vptr) and only then holds `subNode` (inode.h:27).
  // FetchFrom and WriteBack copy a sector to and from the object's first
  // SectorSize bytes, which are the vptr and the first StoredSlots slots.

  /** Slots that a sector copy of the object carries; the last PtrWords slots it never reaches. */
  const StoredSlots: nat := SlotsPerBlock - PtrWords

  /** A vptr as disk words. Its first word, the whole pointer with 4-byte
      pointers and the low half with 8-byte ones on a little-endian machine,
      is not zero. */
  type PointerWords = w: seq<int> | |w| == PtrWords && w[0] != 0 witness seq(PtrWords, _ => 1)

  /** The vptr every object built by inode::inode carries. */
  const Vtable: PointerWords

  /** An inode object as a value: its vptr and its slots. */
  datatype Obj = Obj(vptr: seq<int>, slots: Block)

  predicate ObjOk(o: Obj)
  {
    |o.vptr| == PtrWords && IsBlock(o.slots)
  }

  /** The object inode::inode builds. */
  function FreshObj(): (o: Obj)
    ensures ObjOk(o)
  {
    Obj(Vtable, FreshBlock())
  }

  /** The object after FetchFrom reads sector image b into it. */
  function Fetched(o: Obj, b: Block): (r: Obj)
    requires ObjOk(o) && IsBlock(b)
    ensures ObjOk(r)
  {
    Obj(b[..PtrWords], b[PtrWords..] + o.slots[StoredSlots..])
  }

  /** The sector image WriteBack writes from the object. */
  function Image(o: Obj): (b: Block)
    requires ObjOk(o)
    ensures IsBlock(b)
  {
    o.vptr + o.slots[..StoredSlots]
  }

  /** Slot i of a fresh object after it has read sector image b: a stored
      slot comes from the word after the vptr, a slot past StoredSlots keeps
      the constructor's -1. */
  function ReadSlot(b: Block, i: nat): int
    requires IsBlock(b) && i < SlotsPerBlock
  {
    if i < StoredSlots then b[PtrWords + i] else Absent
  }

  /** The image's first words are a genuine vptr; deleting an object that read
      it runs the destructor rather than a call through garbage. */
  predicate Genuine(b: Block)
    requires IsBlock(b)
  {
    b[..PtrWords] == Vtable
  }

  /** The image after a stored slot i of the object that read b is set to x
      and the object is written back; a slot that is not stored leaves b. */
  function WithSlot(b: Block, i: nat, x: int): (r: Block)
    requires IsBlock(b) && i < SlotsPerBlock
    ensures IsBlock(r)
  {
    if i < StoredSlots then b[PtrWords + i := x] else b
  }

  /** The image of a fresh object: the vptr, then StoredSlots words -1. */
  function BlankIndex(): (b: Block)
    ensures IsBlock(b)
  {
    Image(FreshObj())
  }

  /** What FetchFrom leaves in each slot: the stored ones come from the image,
      the others are the object's own. */
  lemma FetchedSlots(o: Obj, b: Block)
    requires ObjOk(o) && IsBlock(b)
    ensures var r := Fetched(o, b);
      r.vptr == b[..PtrWords] &&
      (forall i :: 0 <= i < StoredSlots ==> r.slots[i] == b[PtrWords + i]) &&
      (forall i :: StoredSlots <= i < SlotsPerBlock ==> r.slots[i] == o.slots[i]) &&
      (forall i :: 0 <= i < SlotsPerBlock && o.slots[i] == Absent ==> r.slots[i] == ReadSlot(b, i))
  {
  }

  /** Writing back an object that has just read b writes b again. */
  lemma ImageOfFetched(o: Obj, b: Block)
    requires ObjOk(o) && IsBlock(b)
    ensures Image(Fetched(o, b)) == b
  {
    assert Fetched(o, b).slots[..StoredSlots] == b[PtrWords..];
  }

  /** Setting slot i of an object changes its image as WithSlot changes the
      image: the word of a stored slot, nothing for a slot that is not stored. */
  lemma ImageWithSlot(o: Obj, i: nat, x: int)
    requires ObjOk(o) && i < SlotsPerBlock
    ensures Image(o.(slots := o.slots[i := x])) == WithSlot(Image(o), i, x)
  {
    var o' := o.(slots := o.slots[i := x]);
    if i < StoredSlots {
      assert o'.slots[..StoredSlots] == o.slots[..StoredSlots][i := x];
    } else {
      assert o'.slots[..StoredSlots] == o.slots[..StoredSlots];
    }
  }

  /** Reading back an image gives the written object's vptr and stored slots;
      the reader keeps its own last PtrWords slots. */
  lemma FetchedImage(o: Obj, w: Obj)
    requires ObjOk(o) && ObjOk(w)
    ensures Fetched(o, Image(w)) == Obj(w.vptr, w.slots[..StoredSlots] + o.slots[StoredSlots..])
  {
    assert Image(w)[..PtrWords] == w.vptr;
    assert Image(w)[PtrWords..] == w.slots[..StoredSlots];
  }

  /** The round trip through a sector returns an object's slots exactly when
      its last PtrWords slots are the ones a fresh reader already holds. */
  lemma RoundTripLosesLastSlots(w: Obj)
    requires ObjOk(w)
    ensures Fetched(FreshObj(), Image(w)) == w <==>
      forall i :: StoredSlots <= i < SlotsPerBlock ==> w.slots[i] == Absent
  {
    FetchedImage(FreshObj(), w);
    var r := Fetched(FreshObj(), Image(w));
    if r == w {
      forall i | StoredSlots <= i < SlotsPerBlock ensures w.slots[i] == Absent {
        assert r.slots[i] == FreshBlock()[i];
      }
    }
    if forall i :: StoredSlots <= i < SlotsPerBlock ==> w.slots[i] == Absent {
      assert r.slots == w.slots by {
        forall i | 0 <= i < SlotsPerBlock ensures r.slots[i] == w.slots[i] {
          if i >= StoredSlots {
            assert r.slots[i] == FreshBlock()[i];
          }
        }
      }
      assert r == Obj(w.vptr, w.slots);
    }
  }

  /** An object that reads a never-written sector gets a zero vptr, which is not genuine. */
  lemma BlankSectorBreaksVptr(o: Obj)
    requires ObjOk(o)
    ensures !Genuine(ZeroBlock()) && Fetched(o, ZeroBlock()).vptr != Vtable
  {
    assert ZeroBlock()[..PtrWords][0] == 0;
  }

  /** Slot and genuineness after WithSlot. */
  lemma WithSlotReads(b: Block, i: nat, x: int)
    requires IsBlock(b) && i < SlotsPerBlock
    ensures Genuine(WithSlot(b, i, x)) == Genuine(b)
    ensures forall i' :: 0 <= i' < SlotsPerBlock ==>
      ReadSlot(WithSlot(b, i, x), i') == if i' == i && i < StoredSlots then x else ReadSlot(b, i')
  {
    assert WithSlot(b, i, x)[..PtrWords] == b[..PtrWords];
  }

  /** A fresh object's image is genuine and every slot read from it is absent. */
  lemma BlankIndexReads()
    ensures Genuine(BlankIndex())
    ensures forall i :: 0 <= i < SlotsPerBlock ==> ReadSlot(BlankIndex(), i) == Absent
  {
  }

  /** inode::Remove scans only SectorSize/BitsInByte slots, not all of them. */
  const RemoveScanLimit: nat := SectorSize / BitsInByte

  /** The lowest index in [from, limit) holding `s`, or -1. */
  function FirstMatch(b: seq<int>, s: int, from: nat, limit: nat): (r: int)
    requires limit <= |b|
    ensures r == -1 <==> forall j :: from <= j < limit ==> b[j] != s
    ensures r != -1 ==> from <= r < limit && b[r] == s && forall j :: from <= j < r ==> b[j] != s
    decreases limit - from
  {
    if from >= limit then -1
    else if b[from] == s then from
    else FirstMatch(b, s, from + 1, limit)
  }

  /** The slots after inode::Remove(s). */
  function RemovedFirst(b: seq<int>, s: int): seq<int>
    requires RemoveScanLimit <= |b|
  {
    var k := FirstMatch(b, s, 0, RemoveScanLimit);
    if k == -1 then b else b[k := Absent]
  }

  /** inode::Find with a bitmap, as a value: the slot's sector, the block and
      the bitmap afterwards. Only an absent slot draws a sector from the map. */
  datatype Found = Found(sector: int, block: Block, bits: seq<bool>)

  function FoundSlot(b: Block, bits: seq<bool>, i: nat): Found
    requires i < |b|
  {
    if b[i] != Absent then Found(b[i], b, bits)
    else var g := Granted(bits); Found(g.sector, b[i := g.sector], g.bits)
  }

  /** Find changes at most slot i, and keeps it when it is populated. */
  lemma FoundSlotFrame(b: Block, bits: seq<bool>, i: nat)
    requires i < |b|
    ensures var f := FoundSlot(b, bits, i);
      |f.block| == |b| && f.block[i] == f.sector &&
      (forall j :: 0 <= j < |b| && j != i ==> f.block[j] == b[j]) &&
      (b[i] != Absent ==> f == Found(b[i], b, bits)) &&
      (b[i] == Absent ==> f.sector == FirstClear(bits))
  {
  }

  /** A second Find of the same slot returns the same sector and changes nothing more. */
  lemma {:induction false} FoundSlotIdempotent(b: Block, bits: seq<bool>, i: nat)
    requires i < |b|
    ensures var f := FoundSlot(b, bits, i);
      FoundSlot(f.block, f.bits, i) == f
  {
    var f := FoundSlot(b, bits, i);
    if b[i] == Absent && f.sector == -1 {
      GrantCost(bits);
      assert f.bits == bits;
      assert CountClear(f.bits) == 0;
    }
  }

  /** inode::Remove resets only the first matching slot among the scanned ones. */
  lemma RemovedFirstSpec(b: seq<int>, s: int)
    requires RemoveScanLimit <= |b|
    ensures var r := RemovedFirst(b, s);
      |r| == |b| &&
      ((forall j :: 0 <= j < RemoveScanLimit ==> b[j] != s) ==> r == b) &&
      (forall k :: 0 <= k < RemoveScanLimit && b[k] == s && (forall j :: 0 <= j < k ==> b[j] != s) ==>
         r == b[k := Absent]) &&
      (forall j :: RemoveScanLimit <= j < |b| ==> r[j] == b[j])
  {
    var k := FirstMatch(b, s, 0, RemoveScanLimit);
    forall k' | 0 <= k' < RemoveScanLimit && b[k'] == s && (forall j :: 0 <= j < k' ==> b[j] != s)
      ensures RemovedFirst(b, s) == b[k' := Absent]
    {
      assert k != -1;
    }
  }

  class Inode {
    var vptr: seq<int>
    var subNode: array<int>

    ghost predicate Valid()
      reads this
    {
      subNode.Length == SlotsPerBlock && |vptr| == PtrWords
    }

    /** The object as a value. */
    function View(): (o: Obj)
      reads this, subNode
      requires Valid()
      ensures ObjOk(o)
    {
      Obj(vptr, subNode[..])
    }

    /** inode::inode: a genuine vptr and every slot absent. */
    constructor ()
      ensures Valid() && fresh(subNode)
      ensures View() == FreshObj()
    {
      vptr := Vtable;
      var slots := new int[SlotsPerBlock];
      var i := 0;
      while i < SlotsPerBlock
        invariant 0 <= i <= SlotsPerBlock
        invariant forall j :: 0 <= j < i ==> slots[j] == Absent
      {
        slots[i] := Absent;
        i := i + 1;
      }
      subNode := slots;
      new;
      assert subNode[..] == FreshBlock();
    }

    /** inode::Find: the slot's sector; with a bitmap, an absent slot is first
        filled with the bitmap's lowest clear sector. */
    method Find(freeMap: BitMap?, i: nat) returns (r: int)
      requires Valid() && i < SlotsPerBlock
      modifies subNode, freeMap
      ensures freeMap == null ==> r == old(subNode[i]) && subNode[..] == old(subNode[..])
      ensures freeMap != null ==>
        Found(r, subNode[..], freeMap.bits) == FoundSlot(old(subNode[..]), old(freeMap.bits), i)
    {
      if freeMap == null {
        return subNode[i];
      }
      if subNode[i] == Absent {
        var s := freeMap.Find();
        subNode[i] := s;
      }
      r := subNode[i];
    }

    /** inode::Check: whether slot i holds a sector. */
    predicate Check(i: nat)
      reads this, subNode
      requires Valid() && i < SlotsPerBlock
    {
      subNode[i] != Absent
    }

    /** inode::Remove: reset the first slot among the scanned ones that holds `sector`. */
    method Remove(sector: int)
      requires Valid()
      modifies subNode
      ensures subNode[..] == RemovedFirst(old(subNode[..]), sector)
    {
      var i := 0;
      while i < RemoveScanLimit
        invariant 0 <= i <= RemoveScanLimit
        invariant subNode[..] == old(subNode[..])
        invariant forall j :: 0 <= j < i ==> subNode[j] != sector
      {
        if subNode[i] == sector {
          assert FirstMatch(subNode[..], sector, 0, RemoveScanLimit) == i;
          subNode[i] := Absent;
          return;
        }
        i := i + 1;
      }
    }

    /** inode::FetchFrom: the sector is copied over the object's first
        SectorSize bytes, the vptr and then the first StoredSlots slots. */
    method FetchFrom(disk: SynchDisk, sector: int)
      requires Valid() && disk.Valid() && InRange(sector)
      modifies this, subNode
      ensures Valid() && subNode == old(subNode)
      ensures View() == Fetched(old(View()), disk.blocks[sector])
    {
      var b := disk.ReadSector(sector);
      var i := 0;
      while i < StoredSlots
        invariant 0 <= i <= StoredSlots
        invariant forall j :: 0 <= j < i ==> subNode[j] == b[PtrWords + j]
        invariant forall j :: StoredSlots <= j < SlotsPerBlock ==> subNode[j] == old(subNode[j])
        modifies subNode
      {
        subNode[i] := b[PtrWords + i];
        i := i + 1;
      }
      vptr := b[..PtrWords];
      assert subNode[..] == b[PtrWords..] + old(subNode[..])[StoredSlots..];
    }

    /** inode::WriteBack: the sector receives the object's first SectorSize
        bytes, the vptr and then the first StoredSlots slots. */
    method WriteBack(disk: SynchDisk, sector: int)
      requires Valid() && disk.Valid() && InRange(sector)
      modifies disk
      ensures disk.Valid()
      ensures disk.blocks == old(disk.blocks)[sector := Image(View())]
    {
      disk.WriteSector(sector, vptr + subNode[..StoredSlots]);
    }

    /** Whether `delete` can run the virtual destructor: the vptr is still the
        one the constructor set. */
    predicate Intact()
      reads this
    {
      vptr == Vtable
    }
  }
}
