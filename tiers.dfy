/** Decomposition of a virtual sector index (a byte offset divided by
    SectorSize) into the direct, single-, double- and triple-indirect tiers
    of a file header (code/filesys/filehdr.cc). */
module Tiers {
  import opened Geometry

  /** Where a virtual sector index lives: a direct slot, or the top-level
      slot, block and slot inside the index blocks of one tier. */
  datatype Slot =
    | Direct(index: nat)
    | Single(index: nat)
    | Double(block: nat, index: nat)
    | Triple(top: nat, block: nat, index: nat)
    | Beyond

  predicate ValidSlot(t: Slot)
  {
    match t
    case Direct(i) => i < NumDirect
    case Single(i) => i < MaxSingleSize
    case Double(b, i) => b < MaxSingleSize && i < MaxSingleSize
    case Triple(u, b, i) => u < MaxSingleSize && b < MaxSingleSize && i < MaxSingleSize
    case Beyond => true
  }

  /** The decomposition used by ByteToSector and ByteToINodeSector. */
  function Classify(v: nat): Slot
  {
    if v < NumDirect then Direct(v)
    else if v < DoubleStart then Single(v - NumDirect)
    else if v < TripleStart then
      var w := v - DoubleStart;
      Double(w / MaxSingleSize, w % MaxSingleSize)
    else if v < TierEnd then
      var w := v - TripleStart;
      Triple(w / MaxDoubleSize, (w % MaxDoubleSize) / MaxSingleSize, w % MaxSingleSize)
    else Beyond
  }

  /** The virtual index a slot addresses. */
  function Position(t: Slot): int
  {
    match t
    case Direct(i) => i
    case Single(i) => NumDirect + i
    case Double(b, i) => DoubleStart + b * MaxSingleSize + i
    case Triple(u, b, i) => TripleStart + u * MaxDoubleSize + b * MaxSingleSize + i
    case Beyond => -1
  }

  /** Every index below TierEnd has exactly one valid slot, and the slot gives the index back. */
  lemma ClassifyPosition(v: nat)
    ensures Classify(v) == Beyond <==> v >= TierEnd
    ensures ValidSlot(Classify(v))
    ensures Classify(v) != Beyond ==> Position(Classify(v)) == v
  {
    if TripleStart <= v < TierEnd {
      TripleDigits(v - TripleStart);
    }
  }

  /** The three base-MaxSingleSize digits of an offset into the triple tier. */
  lemma TripleDigits(w: nat)
    requires w < MaxSingleSize * MaxDoubleSize
    ensures w / MaxDoubleSize < MaxSingleSize
    ensures w == (w / MaxDoubleSize) * MaxDoubleSize + ((w % MaxDoubleSize) / MaxSingleSize) * MaxSingleSize + w % MaxSingleSize
  {
    var u, r := w / MaxDoubleSize, w % MaxDoubleSize;
    assert w == u * MaxDoubleSize + r;
    assert r == (r / MaxSingleSize) * MaxSingleSize + r % MaxSingleSize;
    assert w % MaxSingleSize == r % MaxSingleSize by {
      assert w == (u * MaxSingleSize + r / MaxSingleSize) * MaxSingleSize + r % MaxSingleSize;
    }
  }

  /** Conversely, every valid slot is what its own index classifies to. */
  lemma PositionClassify(t: Slot)
    requires ValidSlot(t) && t != Beyond
    ensures Position(t) >= 0 && Classify(Position(t)) == t
  {
    match t
    case Direct(i) =>
    case Single(i) =>
    case Double(b, i) =>
      var w := b * MaxSingleSize + i;
      assert w / MaxSingleSize == b && w % MaxSingleSize == i;
    case Triple(u, b, i) =>
      var r := b * MaxSingleSize + i;
      assert r < MaxDoubleSize;
      var w := u * MaxDoubleSize + r;
      assert w / MaxDoubleSize == u && w % MaxDoubleSize == r;
      assert r / MaxSingleSize == b && r % MaxSingleSize == i;
      assert w == (u * MaxSingleSize + b) * MaxSingleSize + i;
      assert w % MaxSingleSize == i;
  }

  /** The decomposition Append uses (filehdr.cc:137-215): it works on
      vAddr = v - NumDirect and, in the triple tier, subtracts only
      MaxDoubleSize from vAddr. */
  function AppendClassify(v: nat): (r: Slot)
    ensures !r.Triple? ==> ValidSlot(r)
  {
    var vAddr: int := v - NumDirect;
    if vAddr + NumDirect < NumDirect then Direct(v)
    else if vAddr < MaxSingleSize then Single(vAddr)
    else if vAddr < MaxSingleSize + MaxDoubleSize then
      var w := vAddr - MaxSingleSize;
      Double(w / MaxSingleSize, w % MaxSingleSize)
    else if vAddr < MaxSingleSize + MaxDoubleSize + MaxTripleSize then
      var w := vAddr - MaxDoubleSize;
      Triple(w / MaxDoubleSize, (w / MaxSingleSize) % MaxSingleSize, w % MaxSingleSize)
    else Beyond
  }

  /** Below the triple tier Append fills exactly the slot ByteToSector reads. */
  lemma AppendAgreesBelowTriple(v: nat)
    requires v < TripleStart
    ensures AppendClassify(v) == Classify(v)
  {
  }

  /** In the triple tier the two disagree: the first triple-tier index is
      filed by Append under block 1 but looked up by ByteToSector under block 0. */
  lemma AppendTripleDiverges()
    ensures AppendClassify(TripleStart) == Triple(0, 1, 0)
    ensures Classify(TripleStart) == Triple(0, 0, 0)
  {
  }

  /** Near the end of the triple tier Append's top-level slot runs past the
      SlotsPerBlock slots of an index block. */
  lemma AppendTripleOverflows()
    ensures var v := NumDirect + MaxDoubleSize + MaxTripleSize;
      v < TierEnd && AppendClassify(v).Triple? && AppendClassify(v).top == SlotsPerBlock
  {
  }
}
