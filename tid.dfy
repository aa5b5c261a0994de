/** The thread-id allocator of code/threads/tid.cc: a next-fit scan over a
    map of TID_MAX_DEFAULT bits, starting after the last id handed out. */
module Tids {
  import opened BitMaps
  import opened Wrappers

  /** TID_MAX_DEFAULT: the number of thread ids. */
  const TidMax: nat := 128

  /** find_next_zero_bit's answer: -1 when no bit is clear; otherwise the
      lowest clear bit at or above t. The scan never stops on its own (its
      counter j never advances), so when every bit from t up is set it runs
      into BitMap::Test's range ASSERT, as it does for a negative t. */
  function NextZero(bits: seq<bool>, t: int): Outcome<int>
    requires |bits| == TidMax
  {
    if CountClear(bits) == 0 then Done(-1)
    else if t < 0 || t >= TidMax then Halted
    else
      var r := FirstClearFrom(bits, t);
      if r == -1 then Halted else Done(r)
  }

  /** The three answers of the scan, each stated on the map alone. */
  lemma NextZeroMeaning(bits: seq<bool>, t: int)
    requires |bits| == TidMax
    ensures NextZero(bits, t) == Done(-1) <==> forall i :: 0 <= i < TidMax ==> bits[i]
    ensures NextZero(bits, t).Halted? <==>
      CountClear(bits) > 0 && (t < 0 || forall i :: t <= i < TidMax ==> bits[i])
    ensures NextZero(bits, t).Done? && NextZero(bits, t).value != -1 ==>
      var i := NextZero(bits, t).value;
      t <= i < TidMax && !bits[i] && forall k :: t <= k < i ==> bits[k]
    ensures !NextZero(bits, t).Unmodelled?
  {
    if CountClear(bits) > 0 && 0 <= t < TidMax && FirstClearFrom(bits, t) == -1 {
      assert forall i :: t <= i < TidMax ==> bits[i];
    }
  }

  /** When every bit above the cursor is clear, the scan from just above it
      takes the very next id. */
  lemma NextZeroAfterCursor(bits: seq<bool>, last: int)
    requires |bits| == TidMax && -1 <= last && last + 1 < TidMax
    requires forall k :: last < k < TidMax ==> !bits[k]
    ensures NextZero(bits, last + 1) == Done(last + 1)
  {
    assert !bits[last + 1];
  }

  /** The static state of tid.cc: last_tid and _tidmap. */
  class TidMap {
    var lastTid: int
    var bits: seq<bool>

    /** Every id above the last one handed out is free: alloc_tidmap scans
        from last_tid + 1 and clear_bit only frees. */
    ghost predicate Valid()
      reads this
    {
      |bits| == TidMax && -1 <= lastTid < TidMax &&
      forall k :: lastTid < k < TidMax ==> !bits[k]
    }

    /** The initial values of last_tid and _tidmap. */
    constructor ()
      ensures Valid() && lastTid == -1 && bits == seq(TidMax, _ => false)
    {
      lastTid := -1;
      bits := seq(TidMax, _ => false);
    }

    method FindNextZeroBit(t: int) returns (r: Outcome<int>)
      requires |bits| == TidMax
      modifies this
      ensures |bits| == TidMax
      ensures r == NextZero(old(bits), t)
      ensures r.Done? && r.value != -1 ==> bits == old(bits)[r.value := true] && lastTid == r.value
      ensures !(r.Done? && r.value != -1) ==> bits == old(bits) && lastTid == old(lastTid)
      ensures old(Valid()) && t == old(lastTid) + 1 ==> Valid()
    {
      if CountClear(bits) == 0 {
        return Done(-1);
      }
      var i := t;
      // The source's loop test is always true: i % TidMax < TidMax and j stays 0.
      while true
        invariant t <= i && (i == t || 0 <= t) && (i == t || i <= TidMax)
        invariant forall k :: t <= k < i ==> 0 <= k < |bits| && bits[k]
        invariant bits == old(bits) && lastTid == old(lastTid)
        decreases TidMax - i
      {
        if !(0 <= i < TidMax) {
          return Halted;
        }
        if !bits[i] {
          bits := bits[i := true];
          lastTid := i;
          return Done(i);
        }
        i := i + 1;
      }
    }

    /** alloc_tidmap: never halts; hands out exactly last_tid + 1 while that
        is below TidMax, so ids strictly increase and a freed id is never
        handed out again; -1 once the cursor has reached the top. */
    method AllocTid() returns (r: Outcome<int>)
      requires Valid()
      modifies this
      ensures Valid()
      ensures old(lastTid) + 1 >= TidMax ==> r == Done(-1) && bits == old(bits) && lastTid == old(lastTid)
      ensures old(lastTid) + 1 < TidMax ==>
        r == Done(old(lastTid) + 1) && bits == old(bits)[old(lastTid) + 1 := true] && lastTid == old(lastTid) + 1
    {
      var tid := lastTid + 1;
      if tid >= TidMax {
        return Done(-1);
      }
      NextZeroAfterCursor(bits, lastTid);
      if CountClear(bits) == 0 {
        return Done(-1);
      }
      r := FindNextZeroBit(tid);
    }

    /** clear_bit: BitMap::Clear ASSERTs that the id is in range. */
    method ClearBit(t: int) returns (r: Outcome<()>)
      requires |bits| == TidMax
      modifies this
      ensures |bits| == TidMax && lastTid == old(lastTid)
      ensures !(0 <= t < TidMax) ==> r == Halted && bits == old(bits)
      ensures 0 <= t < TidMax ==> r == Done(()) && bits == old(bits)[t := false]
      ensures old(Valid()) ==> Valid()
    {
      if !(0 <= t < TidMax) {
        return Halted;
      }
      bits := bits[t := false];
      return Done(());
    }

    /** free_tidmap has an empty body: no modifies clause, so nothing changes. */
    method FreeTid(tid: int)
      ensures lastTid == old(lastTid) && bits == old(bits)
    {
    }
  }
}
