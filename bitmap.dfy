/** The free-sector bitmap (BitMap of bitmap.h, which is not part of this
    model) as a sequence of bits, true meaning "in use". */
module BitMaps {

  /** Number of clear bits: BitMap::NumClear. */
  function CountClear(bits: seq<bool>): (n: nat)
    ensures n <= |bits|
    ensures n == 0 <==> forall i :: 0 <= i < |bits| ==> bits[i]
  {
    if bits == [] then 0
    else CountClear(bits[..|bits| - 1]) + (if bits[|bits| - 1] then 0 else 1)
  }

  /** Index of the lowest clear bit at or above `from`, or -1. */
  function FirstClearFrom(bits: seq<bool>, from: nat): (r: int)
    requires from <= |bits|
    ensures r == -1 || from <= r < |bits|
    ensures r == -1 <==> forall i :: from <= i < |bits| ==> bits[i]
    ensures r != -1 ==> !bits[r] && forall i :: from <= i < r ==> bits[i]
    decreases |bits| - from
  {
    if from == |bits| then -1
    else if !bits[from] then from
    else FirstClearFrom(bits, from + 1)
  }

  /** The bit BitMap::Find hands out: the lowest clear one, or -1 when full. */
  function FirstClear(bits: seq<bool>): (r: int)
    ensures -1 <= r < |bits|
    ensures r == -1 <==> CountClear(bits) == 0
    ensures r != -1 ==> !bits[r] && forall i :: 0 <= i < r ==> bits[i]
  {
    FirstClearFrom(bits, 0)
  }

  /** BitMap::Find as a value: the sector handed out and the map after marking it. */
  datatype Grant = Grant(sector: int, bits: seq<bool>)

  function Granted(bits: seq<bool>): (g: Grant)
  {
    var r := FirstClear(bits);
    if r == -1 then Grant(-1, bits) else Grant(r, bits[r := true])
  }

  /** Marking a clear bit consumes exactly one free sector. */
  lemma {:induction false} MarkConsumesOne(bits: seq<bool>, i: int)
    requires 0 <= i < |bits| && !bits[i]
    ensures CountClear(bits[i := true]) == CountClear(bits) - 1
    decreases |bits|
  {
    var n := |bits| - 1;
    if i == n {
      assert bits[i := true][..n] == bits[..n];
    } else {
      assert bits[i := true][..n] == bits[..n][i := true];
      MarkConsumesOne(bits[..n], i);
    }
  }

  /** Clearing a marked bit frees exactly one sector. */
  lemma {:induction false} ClearFreesOne(bits: seq<bool>, i: int)
    requires 0 <= i < |bits| && bits[i]
    ensures CountClear(bits[i := false]) == CountClear(bits) + 1
    decreases |bits|
  {
    var n := |bits| - 1;
    if i == n {
      assert bits[i := false][..n] == bits[..n];
    } else {
      assert bits[i := false][..n] == bits[..n][i := false];
      ClearFreesOne(bits[..n], i);
    }
  }

  /** A grant marks the bit it hands out and costs one free sector;
      from a full map it hands out -1 and changes nothing. */
  lemma GrantCost(bits: seq<bool>)
    ensures var g := Granted(bits);
      |g.bits| == |bits| &&
      (g.sector == -1 <==> CountClear(bits) == 0) &&
      (g.sector == -1 ==> g.bits == bits) &&
      (g.sector != -1 ==> 0 <= g.sector < |bits| && !bits[g.sector] && g.bits[g.sector] &&
                          CountClear(g.bits) == CountClear(bits) - 1 &&
                          forall i :: 0 <= i < |bits| && i != g.sector ==> g.bits[i] == bits[i])
  {
    var r := FirstClear(bits);
    if r != -1 {
      MarkConsumesOne(bits, r);
    }
  }

  class BitMap {
    var bits: seq<bool>

    constructor (numBits: nat)
      ensures bits == seq(numBits, _ => false)
    {
      bits := seq(numBits, _ => false);
    }

    /** Mark and return the lowest clear bit; -1 when every bit is set. */
    method Find() returns (r: int)
      modifies this
      ensures Grant(r, bits) == Granted(old(bits))
    {
      var i := 0;
      while i < |bits|
        invariant 0 <= i <= |bits|
        invariant forall j :: 0 <= j < i ==> bits[j]
        invariant bits == old(bits)
      {
        if !bits[i] {
          bits := bits[i := true];
          r := i;
          return;
        }
        i := i + 1;
      }
      r := -1;
    }

    method Mark(i: int)
      requires 0 <= i < |bits|
      modifies this
      ensures bits == old(bits)[i := true]
    {
      bits := bits[i := true];
    }

    method Clear(i: int)
      requires 0 <= i < |bits|
      modifies this
      ensures bits == old(bits)[i := false]
    {
      bits := bits[i := false];
    }

    /** BitMap::FetchFrom: the map takes the contents of the bitmap file,
        modelled as the BitMap object that holds them. */
    method FetchFrom(file: BitMap)
      modifies this
      ensures bits == file.bits
    {
      bits := file.bits;
    }

    /** BitMap::WriteBack: the bitmap file takes the map's contents. */
    method WriteBack(file: BitMap)
      modifies file
      ensures file.bits == bits
    {
      file.bits := bits;
    }

    predicate Test(i: int)
      reads this
      requires 0 <= i < |bits|
    {
      bits[i]
    }

    function NumClear(): nat
      reads this
    {
      CountClear(bits)
    }
  }
}
