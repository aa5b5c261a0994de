/** How FileHeader::Append (code/filesys/filehdr.cc:123-225) grows a header,
    as functions on a header, the disk, the bitmap and the two inode objects
    the loop reuses, and what the growth keeps and achieves below the
    triple-indirect tier. */
module Growth {
  import opened Geometry
  import opened Disk
  import opened BitMaps
  import opened Inodes
  import opened Tiers
  import opened Headers
  import opened Wrappers

  /** What Append's loop carries from one iteration to the next: the header,
      the disk and the bitmap, and the objects sinode (s) and dinode (d). The
      loop reuses both, so the slots a sector read does not reach keep what
      an earlier iteration left in them. */
  datatype Run = Run(vol: Vol, s: Obj, d: Obj)

  predicate RunOk(r: Run)
  {
    VolOk(r.vol) && ObjOk(r.s) && ObjOk(r.d)
  }

  /** The loop's starting state: the objects Append constructs. */
  function Start(st: Vol): (r: Run)
    requires VolOk(st)
    ensures RunOk(r)
  {
    Run(st, FreshObj(), FreshObj())
  }

  /** One loop iteration for direct slot i: skip a populated slot, else draw a sector for it. */
  function AppendDirect(r: Run, i: nat): (out: Outcome<Run>)
    requires RunOk(r) && i < NumDirect
    ensures out.Done? ==> RunOk(out.value)
  {
    var st := r.vol;
    if st.hdr.dataSectors[i] != Absent then Done(r)
    else
      var g := Granted(st.bits);
      Done(r.(vol := st.(hdr := st.hdr.(dataSectors := st.hdr.dataSectors[i := g.sector]), bits := g.bits)))
  }

  /** One loop iteration for slot k of the single-indirect block. Without a
      block the header gets one drawn from the bitmap and sinode is used as
      it stands; with one, sinode reads it. A populated slot skips the rest
      of the iteration. */
  function AppendSingle(r: Run, k: nat): (out: Outcome<Run>)
    requires RunOk(r) && k < MaxSingleSize
    ensures out.Done? ==> RunOk(out.value)
  {
    var st := r.vol;
    var h := st.hdr;
    if h.singleIndex >= 0 && !InRange(h.singleIndex) then Halted
    else
      var g := Granted(st.bits);
      var si := if h.singleIndex < 0 then g.sector else h.singleIndex;
      var s := if h.singleIndex < 0 then r.s else Fetched(r.s, st.disk[h.singleIndex]);
      var bits := if h.singleIndex < 0 then g.bits else st.bits;
      var h' := h.(singleIndex := si);
      if s.slots[k] != Absent then Done(Run(Vol(h', st.disk, bits), s, r.d))
      else
        var f := FoundSlot(s.slots, bits, k);
        var s' := s.(slots := f.block);
        if !InRange(si) then Halted
        else Done(Run(Vol(h', st.disk[si := Image(s')], f.bits), s', r.d))
  }

  /** One loop iteration for slot k of sub-block j of the double-indirect
      tier. The top block is drawn when missing, else dinode reads it. */
  function AppendDouble(r: Run, j: nat, k: nat): (out: Outcome<Run>)
    requires RunOk(r) && j < MaxSingleSize && k < MaxSingleSize
    ensures out.Done? ==> RunOk(out.value)
  {
    var st := r.vol;
    var h := st.hdr;
    if h.doubleIndex >= 0 && !InRange(h.doubleIndex) then Halted
    else
      var g := Granted(st.bits);
      var di := if h.doubleIndex < 0 then g.sector else h.doubleIndex;
      var d := if h.doubleIndex < 0 then r.d else Fetched(r.d, st.disk[h.doubleIndex]);
      var bits := if h.doubleIndex < 0 then g.bits else st.bits;
      AppendDoubleSub(Run(Vol(h.(doubleIndex := di), st.disk, bits), r.s, d), j, k)
  }

  /** The rest of that iteration, once dinode holds the top block and the
      header names it. A missing sub-block is drawn and sinode is replaced
      by a new object; otherwise sinode reads the sub-block. A populated
      data slot skips the rest; else it is drawn and the sub-block then the
      top block are written back. */
  function AppendDoubleSub(r: Run, j: nat, k: nat): (out: Outcome<Run>)
    requires RunOk(r) && j < MaxSingleSize && k < MaxSingleSize
    ensures out.Done? ==> RunOk(out.value)
  {
    var st := r.vol;
    var di := st.hdr.doubleIndex;
    var fd := FoundSlot(r.d.slots, st.bits, j);
    var ss := fd.sector;
    var d' := r.d.(slots := fd.block);
    if r.d.slots[j] != Absent && !InRange(ss) then Halted
    else
      var s := if r.d.slots[j] == Absent then FreshObj() else Fetched(r.s, st.disk[ss]);
      if s.slots[k] != Absent then Done(Run(Vol(st.hdr, st.disk, fd.bits), s, d'))
      else
        var fs := FoundSlot(s.slots, fd.bits, k);
        var s' := s.(slots := fs.block);
        if !InRange(ss) || !InRange(di) then Halted
        else Done(Run(Vol(st.hdr, st.disk[ss := Image(s')][di := Image(d')], fs.bits), s', d'))
  }

  /** One iteration of Append's loop for virtual index v, classified the way
      Append classifies it. A negative v fails every size_t tier test
      (SizeLess), and the iteration does nothing. */
  function AppendSector(r: Run, v: int): (out: Outcome<Run>)
    requires RunOk(r)
    ensures out.Done? ==> RunOk(out.value)
  {
    if v < 0 then Done(r)
    else match AppendClassify(v)
      case Direct(i) => AppendDirect(r, i)
      case Single(k) => AppendSingle(r, k)
      case Double(j, k) => AppendDouble(r, j, k)
      case Triple(_, _, _) => Unmodelled
      case Beyond => Done(r)
  }

  /** The first k iterations of the loop, for the indices first .. first + k - 1. */
  function AppendAll(r: Run, first: int, k: nat): (out: Outcome<Run>)
    requires RunOk(r)
    ensures out.Done? ==> RunOk(out.value)
    decreases k
  {
    if k == 0 then Done(r)
    else match AppendAll(r, first, k - 1)
      case Done(s) => AppendSector(s, first + k - 1)
      case Halted => Halted
      case Unmodelled => Unmodelled
  }

  /** The iteration for v takes r to r'. */
  ghost predicate StepsTo(r: Run, v: int, r': Run)
    requires RunOk(r)
  {
    AppendSector(r, v) == Done(r')
  }

  /** A run of k iterations from r completes with r'. */
  ghost predicate Reaches(r: Run, first: int, k: nat, r': Run)
    requires RunOk(r)
  {
    AppendAll(r, first, k) == Done(r')
  }

  /** One more iteration after a run of k that completed. */
  lemma AppendAllStep(r: Run, first: int, k: nat, cur: Run)
    requires RunOk(r) && AppendAll(r, first, k) == Done(cur)
    ensures AppendAll(r, first, k + 1) == AppendSector(cur, first + k)
  {
  }

  /** A completed run of k iterations is a completed run of k - 1 followed by the last iteration. */
  lemma AppendAllLast(r: Run, first: int, k: nat, r': Run) returns (s: Run, v: int)
    requires RunOk(r) && k > 0 && Reaches(r, first, k, r')
    ensures RunOk(s) && Reaches(r, first, k - 1, s) && v == first + k - 1 && StepsTo(s, v, r')
  {
    s, v := AppendAll(r, first, k - 1).value, first + k - 1;
  }

  /** A completed run of k iterations followed by a completed iteration for first + k is a completed run of k + 1. */
  lemma ReachesJoin(r: Run, first: int, k: nat, s: Run, r': Run)
    requires RunOk(r) && Reaches(r, first, k, s) && StepsTo(s, first + k, r')
    ensures Reaches(r, first, k + 1, r')
  {
    AppendAllStep(r, first, k, s);
  }

  /** Once an iteration halts or leaves the modelled tiers, so does every longer run. */
  lemma {:induction false} AppendAllStuck(r: Run, first: int, k: nat, n: nat)
    requires RunOk(r) && k <= n && !AppendAll(r, first, k).Done?
    ensures AppendAll(r, first, n) == AppendAll(r, first, k)
    decreases n
  {
    if n > k {
      AppendAllStuck(r, first, k, n - 1);
    }
  }

  /** A run of iterations recorded state by state: each state is the one the
      iteration for its index leaves from the state before. */
  ghost predicate Trace(first: int, trace: seq<Run>)
  {
    (forall t :: 0 <= t < |trace| ==> RunOk(trace[t])) &&
    (forall t :: 0 <= t < |trace| - 1 ==> StepsTo(trace[t], first + t, trace[t + 1]))
  }

  lemma TraceExtend(first: int, trace: seq<Run>, x: Run)
    requires Trace(first, trace) && |trace| > 0 && RunOk(x)
    requires StepsTo(trace[|trace| - 1], first + |trace| - 1, x)
    ensures Trace(first, trace + [x])
  {
    var trace' := trace + [x];
    forall t | 0 <= t < |trace'|
      ensures RunOk(trace'[t])
    {
      if t < |trace| {
        assert trace'[t] == trace[t];
      }
    }
    forall t | 0 <= t < |trace'| - 1
      ensures StepsTo(trace'[t], first + t, trace'[t + 1])
    {
      TraceExtendLink(first, trace, x, t);
    }
  }

  /** Link t of the extended trace is a link of the trace or the new step. */
  lemma TraceExtendLink(first: int, trace: seq<Run>, x: Run, t: int)
    requires Trace(first, trace) && |trace| > 0 && RunOk(x)
    requires StepsTo(trace[|trace| - 1], first + |trace| - 1, x)
    requires 0 <= t < |trace|
    ensures RunOk((trace + [x])[t]) && StepsTo((trace + [x])[t], first + t, (trace + [x])[t + 1])
  {
    var trace' := trace + [x];
    assert trace'[t] == trace[t];
    if t < |trace| - 1 {
      assert trace'[t + 1] == trace[t + 1];
    } else {
      assert trace'[t + 1] == x;
    }
  }

  /** A recorded run of k iterations is AppendAll's. */
  lemma {:induction false} TraceRuns(first: int, trace: seq<Run>, k: nat)
    requires Trace(first, trace) && k < |trace|
    ensures Reaches(trace[0], first, k, trace[k])
    decreases k
  {
    if k > 0 {
      TraceRuns(first, trace, k - 1);
      ReachesJoin(trace[0], first, k - 1, trace[k - 1], trace[k]);
    }
  }

  /** A recorded run whose next iteration does not complete ends AppendAll there. */
  lemma TraceStuck(first: int, trace: seq<Run>, n: nat)
    requires Trace(first, trace) && 0 < |trace| <= n
    requires !AppendSector(trace[|trace| - 1], first + |trace| - 1).Done?
    ensures AppendAll(trace[0], first, n) == AppendSector(trace[|trace| - 1], first + |trace| - 1)
  {
    var k := |trace| - 1;
    var out := AppendSector(trace[k], first + k);
    assert !out.Done?;
    TraceRuns(first, trace, k);
    AppendAllStep(trace[0], first, k, trace[k]);
    AppendAllStuck(trace[0], first, k + 1, n);
  }

  /** Whether Append succeeded, and the header, disk and bitmap afterwards. */
  datatype Appended = Appended(ok: bool, vol: Vol)

  /** FileHeader::Append(bytesToAdd) against the bitmap file's contents
      st.bits: false, changing nothing, when too few sectors are free;
      otherwise every iteration, the ASSERT that the byte count still rounds
      up to the sector count, and the deletes of sinode and dinode, which
      call through their vptrs. */
  function AppendSpec(st: Vol, bytesToAdd: int): Outcome<Appended>
    requires VolOk(st)
  {
    var n := CDivRoundUp(bytesToAdd, SectorSize);
    if n > CountClear(st.bits) then Done(Appended(false, st))
    else match AppendAll(Start(st), st.hdr.numSectors, if n < 0 then 0 else n)
      case Done(r) =>
        if CDivRoundUp(r.vol.hdr.numBytes, SectorSize) != r.vol.hdr.numSectors then Halted
        else if r.s.vptr != Vtable || r.d.vptr != Vtable then Halted
        else Done(Appended(true, r.vol))
      case Halted => Halted
      case Unmodelled => Unmodelled
  }

  // ---------------------------------------------------------------------
  // What one iteration keeps and achieves.

  /** The header fields Append never writes. */
  predicate SameCounters(h: Hdr, h': Hdr)
  {
    h'.numBytes == h.numBytes && h'.numSectors == h.numSectors &&
    h'.fileType == h.fileType && h'.parentSector == h.parentSector &&
    h'.tripleIndex == h.tripleIndex
  }

  /** Tier pointers, once set, stay; bits, once marked, stay marked. */
  predicate Settled(st: Vol, st': Vol)
    requires VolOk(st) && VolOk(st')
  {
    (st.hdr.singleIndex != Absent ==> st'.hdr.singleIndex == st.hdr.singleIndex) &&
    (st.hdr.doubleIndex != Absent ==> st'.hdr.doubleIndex == st.hdr.doubleIndex) &&
    (forall x :: 0 <= x < NumSectors && st.bits[x] ==> st'.bits[x])
  }

  /** Every lookup other than v's that answered before answers the same. */
  ghost predicate Kept(st: Vol, st': Vol, v: int)
    requires VolOk(st) && VolOk(st')
  {
    forall u :: u != v && SectorAt(st.hdr, st.disk, u).Sector? ==>
      SectorAt(st'.hdr, st'.disk, u) == SectorAt(st.hdr, st.disk, u)
  }

  /** Every lookup other than v's answers as before, whether it answered or faulted. */
  ghost predicate Unmoved(st: Vol, st': Vol, v: int)
    requires VolOk(st) && VolOk(st')
  {
    forall u :: u != v ==> SectorAt(st'.hdr, st'.disk, u) == SectorAt(st.hdr, st.disk, u)
  }

  /** When the lookup of v comes to name another sector, that sector lies
      on the disk, was free and is now marked, and no role lives there. */
  ghost predicate FreshAt(st: Vol, st': Vol, v: int)
    requires VolOk(st) && VolOk(st')
  {
    Filled(st', v) && SectorAt(st'.hdr, st'.disk, v) != SectorAt(st.hdr, st.disk, v) ==>
      InRange(SectorAt(st'.hdr, st'.disk, v).sector) &&
      !st.bits[SectorAt(st'.hdr, st'.disk, v).sector] && st'.bits[SectorAt(st'.hdr, st'.disk, v).sector] &&
      forall rl :: ValidRole(rl) ==> RoleSector(st'.hdr, st'.disk, rl) != SectorAt(st'.hdr, st'.disk, v).sector
  }

  /** A sector dinode names in a slot no sector image carries: it lies on
      the disk, is marked, holds a genuine image, and no index block the
      header reaches lives there. */
  ghost predicate Orphan(st: Vol, x: int)
    requires VolOk(st)
  {
    InRange(x) && st.bits[x] && Genuine(st.disk[x]) &&
    forall rl :: ValidRole(rl) ==> RoleSector(st.hdr, st.disk, rl) != x
  }

  ghost predicate Orphans(st: Vol, d: Obj)
    requires VolOk(st) && ObjOk(d)
  {
    forall j :: StoredSlots <= j < SlotsPerBlock && d.slots[j] != Absent ==> Orphan(st, d.slots[j])
  }

  /** What the loop keeps about its objects: both carry the genuine vptr,
      each is as constructed while its tier has no block, and the slots of
      dinode that no image carries name orphan sectors. */
  ghost predicate Carried(r: Run)
    requires RunOk(r)
  {
    r.s.vptr == Vtable && r.d.vptr == Vtable &&
    (r.vol.hdr.singleIndex == Absent ==> r.s == FreshObj()) &&
    (r.vol.hdr.doubleIndex == Absent ==> r.d == FreshObj()) &&
    Orphans(r.vol, r.d)
  }

  /** What an iteration for v keeps: the invariants, the counters, and the
      answers of the other lookups. */
  ghost predicate Steady(r: Run, r': Run, v: int)
    requires RunOk(r) && RunOk(r')
  {
    Consistent(r'.vol) && Carried(r') && SameCounters(r.vol.hdr, r'.vol.hdr) &&
    Settled(r.vol, r'.vol) && Kept(r.vol, r'.vol, v)
  }

  /** What an iteration for v keeps of the data sectors: roles move only to
      free sectors, a sector newly named for v was free, and on an ordered
      header the order stays and no other lookup changes, faulting or not. */
  ghost predicate Tidy(r: Run, r': Run, v: int)
    requires RunOk(r) && RunOk(r')
  {
    RolesGrow(r.vol, r'.vol) && FreshAt(r.vol, r'.vol, v) &&
    (Ordered(r.vol.hdr) ==> Ordered(r'.vol.hdr) && Unmoved(r.vol, r'.vol, v))
  }

  /** What an iteration for v promises: it is Steady, and when v's slots
      are stored ones, v's lookup names a sector unless the bitmap ran out. */
  ghost predicate Grown(r: Run, r': Run, v: int)
    requires RunOk(r) && RunOk(r')
  {
    Steady(r, r', v) &&
    (Persisted(v) ==> Filled(r'.vol, v) || CountClear(r'.vol.bits) == 0)
  }

  /** An iteration that is Grown and Tidy. */
  ghost predicate Stepped(r: Run, r': Run, v: int)
    requires RunOk(r) && RunOk(r')
  {
    Grown(r, r', v) && Tidy(r, r', v)
  }

  /** A step that is Steady followed by one that is Grown is Grown, and Tidy ones compose. */
  lemma SteadyThenGrown(r: Run, m: Run, r': Run, v: int)
    requires RunOk(r) && RunOk(m) && RunOk(r')
    requires Steady(r, m, v) && Tidy(r, m, v) && Stepped(m, r', v)
    requires SectorAt(m.vol.hdr, m.vol.disk, v) == SectorAt(r.vol.hdr, r.vol.disk, v)
    ensures Stepped(r, r', v)
  {
    forall u | u != v && SectorAt(r.vol.hdr, r.vol.disk, u).Sector?
      ensures SectorAt(r'.vol.hdr, r'.vol.disk, u) == SectorAt(r.vol.hdr, r.vol.disk, u)
    {
      assert SectorAt(m.vol.hdr, m.vol.disk, u) == SectorAt(r.vol.hdr, r.vol.disk, u);
    }
    RolesGrowCompose(r.vol, m.vol, r'.vol);
    if Ordered(r.vol.hdr) {
      forall u | u != v
        ensures SectorAt(r'.vol.hdr, r'.vol.disk, u) == SectorAt(r.vol.hdr, r.vol.disk, u)
      {
        assert SectorAt(m.vol.hdr, m.vol.disk, u) == SectorAt(r.vol.hdr, r.vol.disk, u);
      }
    }
  }

  /** A sector that is free lies in no role of a consistent header. */
  lemma FreeNotRole(st: Vol, x: int)
    requires VolOk(st) && Consistent(st) && InRange(x) && !st.bits[x]
    ensures forall rl :: ValidRole(rl) ==> RoleSector(st.hdr, st.disk, rl) != x
  {
  }

  /** Every genuine image stays genuine. */
  ghost predicate GenuineKept(st: Vol, st': Vol)
    requires VolOk(st) && VolOk(st')
  {
    forall x :: 0 <= x < NumSectors && Genuine(st.disk[x]) ==> Genuine(st'.disk[x])
  }

  /** Each role keeps its sector or takes one that was free. */
  ghost predicate RolesGrow(st: Vol, st': Vol)
    requires VolOk(st) && VolOk(st')
  {
    forall rl :: ValidRole(rl) && RoleSector(st'.hdr, st'.disk, rl) != RoleSector(st.hdr, st.disk, rl) ==>
      InRange(RoleSector(st'.hdr, st'.disk, rl)) && !st.bits[RoleSector(st'.hdr, st'.disk, rl)]
  }

  /** Roles whose sectors do not move keep the invariant. */
  lemma RolesKept(st: Vol, st': Vol)
    requires VolOk(st) && VolOk(st') && Consistent(st)
    requires st'.hdr.singleIndex == st.hdr.singleIndex && st'.hdr.doubleIndex == st.hdr.doubleIndex
    requires st'.hdr.tripleIndex == st.hdr.tripleIndex
    requires InRange(st.hdr.doubleIndex) ==> st'.disk[st.hdr.doubleIndex] == st.disk[st.hdr.doubleIndex]
    requires InRange(st.hdr.tripleIndex) ==> st'.disk[st.hdr.tripleIndex] == st.disk[st.hdr.tripleIndex]
    requires forall x :: 0 <= x < NumSectors && st.bits[x] ==> st'.bits[x]
    requires GenuineKept(st, st')
    ensures Consistent(st') && RolesGrow(st, st')
    ensures forall r :: ValidRole(r) ==> RoleSector(st'.hdr, st'.disk, r) == RoleSector(st.hdr, st.disk, r)
  {
    assert forall r :: ValidRole(r) ==> RoleSector(st'.hdr, st'.disk, r) == RoleSector(st.hdr, st.disk, r);
  }

  /** A role that gains a sector which was free before keeps the invariant. */
  lemma RoleAdded(st: Vol, st': Vol, r0: Role, x: int)
    requires VolOk(st) && VolOk(st') && Consistent(st) && ValidRole(r0)
    requires InRange(x) && !st.bits[x] && st'.bits[x] && Genuine(st'.disk[x])
    requires RoleSector(st.hdr, st.disk, r0) == Absent && RoleSector(st'.hdr, st'.disk, r0) == x
    requires forall r :: ValidRole(r) && r != r0 ==> RoleSector(st'.hdr, st'.disk, r) == RoleSector(st.hdr, st.disk, r)
    requires forall y :: 0 <= y < NumSectors && st.bits[y] ==> st'.bits[y]
    requires GenuineKept(st, st')
    ensures Consistent(st') && RolesGrow(st, st')
  {
    forall r1, r2 | ValidRole(r1) && ValidRole(r2) && r1 != r2 && RoleSector(st'.hdr, st'.disk, r1) != Absent
      ensures RoleSector(st'.hdr, st'.disk, r1) != RoleSector(st'.hdr, st'.disk, r2)
    {
      if r2 == r0 {
        assert RoleSector(st'.hdr, st'.disk, r1) == RoleSector(st.hdr, st.disk, r1);
      } else if r1 == r0 {
        assert RoleSector(st'.hdr, st'.disk, r2) == RoleSector(st.hdr, st.disk, r2);
      }
    }
  }

  /** Two steps that each let roles grow let them grow together, when the
      first unmarks nothing. */
  lemma RolesGrowCompose(st: Vol, m: Vol, st': Vol)
    requires VolOk(st) && VolOk(m) && VolOk(st')
    requires forall x :: 0 <= x < NumSectors && st.bits[x] ==> m.bits[x]
    requires RolesGrow(st, m) && RolesGrow(m, st')
    ensures RolesGrow(st, st')
  {
    forall rl | ValidRole(rl) && RoleSector(st'.hdr, st'.disk, rl) != RoleSector(st.hdr, st.disk, rl)
      ensures InRange(RoleSector(st'.hdr, st'.disk, rl)) && !st.bits[RoleSector(st'.hdr, st'.disk, rl)]
    {
      if RoleSector(m.hdr, m.disk, rl) != RoleSector(st.hdr, st.disk, rl) {
        assert InRange(RoleSector(m.hdr, m.disk, rl));
      }
    }
  }

  /** Orphans stay orphans while bits stay marked, images stay genuine and
      roles only take free sectors; a slot that changes must name a new
      orphan or nothing. */
  lemma OrphansKept(st: Vol, st': Vol, d: Obj, d': Obj)
    requires VolOk(st) && VolOk(st') && ObjOk(d) && ObjOk(d') && Orphans(st, d)
    requires forall j :: StoredSlots <= j < SlotsPerBlock && d'.slots[j] != d.slots[j] ==>
      d'.slots[j] == Absent || Orphan(st', d'.slots[j])
    requires forall x :: 0 <= x < NumSectors && st.bits[x] ==> st'.bits[x]
    requires GenuineKept(st, st') && RolesGrow(st, st')
    ensures Orphans(st', d')
  {
    forall j | StoredSlots <= j < SlotsPerBlock && d'.slots[j] != Absent && d'.slots[j] == d.slots[j]
      ensures Orphan(st', d'.slots[j])
    {
      var x := d.slots[j];
      assert Orphan(st, x);
      forall rl | ValidRole(rl) ensures RoleSector(st'.hdr, st'.disk, rl) != x {
        assert RoleSector(st.hdr, st.disk, rl) != x;
      }
    }
  }

  /** The state after a missing tier pointer takes the first free sector,
      which then holds the image of a fresh object. */
  function WithIndex(st: Vol, double: bool): (m: Vol)
    requires VolOk(st) && InRange(FirstClear(st.bits))
    ensures VolOk(m)
  {
    var x := FirstClear(st.bits);
    var h := if double then st.hdr.(doubleIndex := x) else st.hdr.(singleIndex := x);
    Vol(h, st.disk[x := BlankIndex()], st.bits[x := true])
  }

  /** An object reading the image of a fresh one is unchanged when it is fresh itself. */
  lemma FetchedBlank()
    ensures Fetched(FreshObj(), BlankIndex()) == FreshObj()
  {
    FetchedImage(FreshObj(), FreshObj());
    assert FreshBlock()[..StoredSlots] + FreshBlock()[StoredSlots..] == FreshBlock();
  }

  /** Taking a fresh index block for a tier without one keeps everything,
      and the lookup of an index of that tier still faults. */
  lemma WithIndexSteady(r: Run, double: bool, v: int)
    requires RunOk(r) && Consistent(r.vol) && Carried(r)
    requires if double then r.vol.hdr.doubleIndex == Absent && r.vol.hdr.singleIndex != Absent
             else r.vol.hdr.singleIndex == Absent
    requires if double then DoubleStart <= v < TripleStart else SingleStart <= v < DoubleStart
    requires InRange(FirstClear(r.vol.bits))
    ensures Steady(r, Run(WithIndex(r.vol, double), r.s, r.d), v) && Tidy(r, Run(WithIndex(r.vol, double), r.s, r.d), v)
    ensures SectorAt(WithIndex(r.vol, double).hdr, WithIndex(r.vol, double).disk, v) == Fault
    ensures SectorAt(r.vol.hdr, r.vol.disk, v) == Fault
  {
    var st := r.vol;
    var h := st.hdr;
    var x := FirstClear(st.bits);
    var m := WithIndex(st, double);
    var st0 := Vol(h, st.disk[x := BlankIndex()], st.bits);
    BlankIndexReads();
    assert x != h.doubleIndex && x != h.tripleIndex by {
      assert RoleSector(h, st.disk, DoubleRole) == h.doubleIndex;
      assert RoleSector(h, st.disk, TripleRole) == h.tripleIndex;
    }
    RolesKept(st, st0);
    var rl0 := if double then DoubleRole else SingleRole;
    assert RoleSector(m.hdr, m.disk, rl0) == x;
    forall rl | ValidRole(rl) && rl != rl0
      ensures RoleSector(m.hdr, m.disk, rl) == RoleSector(st0.hdr, st0.disk, rl)
    {
    }
    RoleAdded(st0, m, rl0, x);
    RolesGrowCompose(st, st0, m);
    OrphansKept(st, m, r.d, r.d);
    forall u | u != v && SectorAt(h, st.disk, u).Sector?
      ensures SectorAt(m.hdr, m.disk, u) == SectorAt(h, st.disk, u)
    {
      if u >= 0 && double {
        match Classify(u)
        case Single(i) =>
          assert RoleSector(h, st.disk, SingleRole) == h.singleIndex;
        case _ =>
      }
    }
    ClassifyPosition(v);
    if Ordered(h) {
      forall u | u != v
        ensures SectorAt(m.hdr, m.disk, u) == SectorAt(h, st.disk, u)
      {
        if u >= 0 && double {
          match Classify(u)
          case Single(i) =>
            assert RoleSector(h, st.disk, SingleRole) == h.singleIndex;
          case _ =>
        }
      }
    }
  }

  lemma AppendDirectGrows(r: Run, v: nat)
    requires RunOk(r) && Consistent(r.vol) && Carried(r) && v < NumDirect
    ensures AppendDirect(r, v).Done?
    ensures Stepped(r, AppendDirect(r, v).value, v)
  {
    var r' := AppendDirect(r, v).value;
    var st, st' := r.vol, r'.vol;
    GrantCost(st.bits);
    RolesKept(st, st');
    OrphansKept(st, st', r.d, r'.d);
    forall u | u != v
      ensures SectorAt(st'.hdr, st'.disk, u) == SectorAt(st.hdr, st.disk, u)
    {
      SectorAtFrame(st.hdr, st'.hdr, st.disk, u);
    }
    assert SectorAt(st'.hdr, st'.disk, v) == Sector(st'.hdr.dataSectors[v]);
    if st.hdr.dataSectors[v] == Absent && Granted(st.bits).sector != Absent {
      FreeNotRole(st, Granted(st.bits).sector);
    }
  }

  lemma AppendSingleGrows(r: Run, v: nat)
    requires RunOk(r) && Consistent(r.vol) && Carried(r) && SingleStart <= v < DoubleStart
    requires AppendSingle(r, v - NumDirect).Done?
    ensures Stepped(r, AppendSingle(r, v - NumDirect).value, v)
    ensures AppendSingle(r, v - NumDirect).value.vol.hdr.singleIndex != Absent
  {
    var k := v - NumDirect;
    if r.vol.hdr.singleIndex != Absent {
      AppendSingleExisting(r, v);
    } else {
      SingleFreshIsExisting(r, k);
      var m := Run(WithIndex(r.vol, false), r.s, r.d);
      WithIndexSteady(r, false, v);
      AppendSingleExisting(m, v);
      SteadyThenGrown(r, m, AppendSingle(m, k).value, v);
    }
  }

  /** Without a single-indirect block, the iteration is the one that finds
      a fresh block's image at the first free sector. */
  lemma SingleFreshIsExisting(r: Run, k: nat)
    requires RunOk(r) && k < MaxSingleSize && Carried(r)
    requires r.vol.hdr.singleIndex == Absent && AppendSingle(r, k).Done?
    ensures InRange(FirstClear(r.vol.bits))
    ensures AppendSingle(r, k) == AppendSingle(Run(WithIndex(r.vol, false), r.s, r.d), k)
  {
    var st := r.vol;
    var x := FirstClear(st.bits);
    var g := Granted(st.bits);
    FetchedBlank();
    var f := FoundSlot(r.s.slots, g.bits, k);
    var s' := r.s.(slots := f.block);
    assert st.disk[x := BlankIndex()][x := Image(s')] == st.disk[x := Image(s')];
  }

  lemma AppendSingleExisting(r: Run, v: nat)
    requires RunOk(r) && Consistent(r.vol) && Carried(r) && SingleStart <= v < DoubleStart
    requires r.vol.hdr.singleIndex != Absent
    ensures AppendSingle(r, v - NumDirect).Done?
    ensures Stepped(r, AppendSingle(r, v - NumDirect).value, v)
    ensures AppendSingle(r, v - NumDirect).value.vol.hdr.singleIndex != Absent
  {
    var k := v - NumDirect;
    var st := r.vol;
    var si := st.hdr.singleIndex;
    SingleBlockOk(st);
    if Fetched(r.s, st.disk[si]).slots[k] != Absent {
      SinglePopulated(r, v, k);
    } else {
      SingleDraws(r, v, k);
    }
  }

  /** A consistent header's single-indirect block, when it has one, is on
      the disk, marked, and starts with a genuine vptr. */
  lemma SingleBlockOk(st: Vol)
    requires VolOk(st) && Consistent(st) && st.hdr.singleIndex != Absent
    ensures InRange(st.hdr.singleIndex) && st.bits[st.hdr.singleIndex] && Genuine(st.disk[st.hdr.singleIndex])
  {
    assert RoleSector(st.hdr, st.disk, SingleRole) == st.hdr.singleIndex;
  }

  /** A populated slot of the existing block: only sinode changes, to the block read. */
  lemma SinglePopulated(r: Run, v: nat, k: nat)
    requires RunOk(r) && Consistent(r.vol) && Carried(r) && SingleStart <= v < DoubleStart && k == v - NumDirect
    requires var si := r.vol.hdr.singleIndex; InRange(si) && Genuine(r.vol.disk[si])
    requires Fetched(r.s, r.vol.disk[r.vol.hdr.singleIndex]).slots[k] != Absent
    ensures AppendSingle(r, k) == Done(Run(r.vol, Fetched(r.s, r.vol.disk[r.vol.hdr.singleIndex]), r.d))
    ensures Stepped(r, AppendSingle(r, k).value, v)
  {
    var st := r.vol;
    var h := st.hdr;
    var si := h.singleIndex;
    ClassifyPosition(v);
    var s := Fetched(r.s, st.disk[si]);
    FetchedSlots(r.s, st.disk[si]);
    assert h.(singleIndex := si) == h;
    assert Persisted(v) ==> Filled(st, v);
  }

  /** An absent slot of the existing block: the block gets the drawn sector in slot k. */
  lemma SingleDraws(r: Run, v: nat, k: nat)
    requires RunOk(r) && Consistent(r.vol) && Carried(r) && SingleStart <= v < DoubleStart && k == v - NumDirect
    requires var si := r.vol.hdr.singleIndex; InRange(si) && Genuine(r.vol.disk[si])
    requires Fetched(r.s, r.vol.disk[r.vol.hdr.singleIndex]).slots[k] == Absent
    ensures AppendSingle(r, k).Done?
    ensures Stepped(r, AppendSingle(r, k).value, v)
  {
    var st := r.vol;
    var h := st.hdr;
    var si := h.singleIndex;
    var s := Fetched(r.s, st.disk[si]);
    FetchedSlots(r.s, st.disk[si]);
    assert h.(singleIndex := si) == h;
    var g := Granted(st.bits);
    GrantCost(st.bits);
    var s' := s.(slots := s.slots[k := g.sector]);
    ImageOfFetched(r.s, st.disk[si]);
    ImageWithSlot(s, k, g.sector);
    var r' := Run(Vol(h, st.disk[si := WithSlot(st.disk[si], k, g.sector)], g.bits), s', r.d);
    assert AppendSingle(r, k) == Done(r');
    SingleSlotGrown(r, r', v, k, g.sector);
  }

  /** Setting slot k of the existing single-indirect block to x is Grown. */
  lemma SingleSlotGrown(r: Run, r': Run, v: nat, k: nat, x: int)
    requires RunOk(r) && RunOk(r') && Consistent(r.vol) && Carried(r)
    requires SingleStart <= v < DoubleStart && k == v - NumDirect
    requires var si := r.vol.hdr.singleIndex; InRange(si) && Genuine(r.vol.disk[si])
    requires var st := r.vol; var si := st.hdr.singleIndex;
      r'.vol.hdr == st.hdr && r'.vol.disk == st.disk[si := WithSlot(st.disk[si], k, x)]
    requires forall y :: 0 <= y < NumSectors && r.vol.bits[y] ==> r'.vol.bits[y]
    requires x == Absent ==> CountClear(r'.vol.bits) == 0
    requires x != Absent ==> InRange(x) && !r.vol.bits[x] && r'.vol.bits[x]
    requires r'.s.vptr == Vtable && r'.d == r.d
    ensures Stepped(r, r', v)
  {
    var st, st' := r.vol, r'.vol;
    var h := st.hdr;
    var si := h.singleIndex;
    ClassifyPosition(v);
    WithSlotReads(st.disk[si], k, x);
    assert RoleSector(h, st.disk, SingleRole) != RoleSector(h, st.disk, DoubleRole);
    assert RoleSector(h, st.disk, SingleRole) != RoleSector(h, st.disk, TripleRole);
    RolesKept(st, st');
    OrphansKept(st, st', r.d, r'.d);
    forall u | u != v
      ensures SectorAt(st'.hdr, st'.disk, u) == SectorAt(st.hdr, st.disk, u)
    {
      if u >= 0 {
        ClassifyPosition(u);
      }
      SingleLookupKept(st, st', k, x, u);
    }
    if x != Absent {
      FreeNotRole(st, x);
    }
  }

  /** Writing slot k of the single-indirect block leaves every other answering lookup alone. */
  lemma SingleLookupKept(st: Vol, st': Vol, k: nat, x: int, u: int)
    requires VolOk(st) && VolOk(st') && Consistent(st)
    requires InRange(st.hdr.singleIndex) && k < MaxSingleSize && st'.hdr == st.hdr
    requires st'.disk == st.disk[st.hdr.singleIndex := WithSlot(st.disk[st.hdr.singleIndex], k, x)]
    requires u >= 0 ==> Classify(u) != Single(k)
    ensures SectorAt(st'.hdr, st'.disk, u) == SectorAt(st.hdr, st.disk, u)
  {
    var h := st.hdr;
    WithSlotReads(st.disk[h.singleIndex], k, x);
    if u >= 0 {
      match Classify(u)
      case Double(j, i) =>
        assert RoleSector(h, st.disk, DoubleRole) != RoleSector(h, st.disk, SingleRole);
        assert RoleSector(h, st.disk, DoubleSub(j)) != RoleSector(h, st.disk, SingleRole);
      case Triple(t, j, i) =>
        assert RoleSector(h, st.disk, TripleRole) != RoleSector(h, st.disk, SingleRole);
        assert RoleSector(h, st.disk, TripleSub(t)) != RoleSector(h, st.disk, SingleRole);
      case _ =>
    }
  }

  lemma AppendDoubleGrows(r: Run, v: nat)
    requires RunOk(r) && Consistent(r.vol) && Carried(r) && DoubleStart <= v < TripleStart
    requires r.vol.hdr.singleIndex != Absent
    requires var w := v - DoubleStart; AppendDouble(r, w / MaxSingleSize, w % MaxSingleSize).Done?
    ensures var w := v - DoubleStart; Stepped(r, AppendDouble(r, w / MaxSingleSize, w % MaxSingleSize).value, v)
  {
    var w := v - DoubleStart;
    var j, k := w / MaxSingleSize, w % MaxSingleSize;
    if r.vol.hdr.doubleIndex == Absent {
      DoubleFreshIsExisting(r, j, k);
      var m := Run(WithIndex(r.vol, true), r.s, r.d);
      WithIndexSteady(r, true, v);
      AppendDoubleExisting(m, v, j, k);
      SteadyThenGrown(r, m, AppendDouble(m, j, k).value, v);
    } else {
      AppendDoubleExisting(r, v, j, k);
    }
  }

  /** Without a double-indirect block, the iteration is the one that finds
      a fresh block's image at the first free sector. */
  lemma DoubleFreshIsExisting(r: Run, j: nat, k: nat)
    requires RunOk(r) && j < MaxSingleSize && k < MaxSingleSize && Carried(r)
    requires r.vol.hdr.doubleIndex == Absent && AppendDouble(r, j, k).Done?
    ensures InRange(FirstClear(r.vol.bits))
    ensures AppendDouble(r, j, k) == AppendDouble(Run(WithIndex(r.vol, true), r.s, r.d), j, k)
  {
    var st := r.vol;
    var x := FirstClear(st.bits);
    var g := Granted(st.bits);
    FetchedBlank();
    var fd := FoundSlot(r.d.slots, g.bits, j);
    var d' := r.d.(slots := fd.block);
    var fs := FoundSlot(FreshObj().slots, fd.bits, k);
    var s' := FreshObj().(slots := fs.block);
    var ss := fd.sector;
    assert st.disk[x := BlankIndex()][ss := Image(s')][x := Image(d')] == st.disk[ss := Image(s')][x := Image(d')];
  }

  lemma AppendDoubleExisting(r: Run, v: nat, j: nat, k: nat)
    requires RunOk(r) && Consistent(r.vol) && Carried(r) && DoubleStart <= v < TripleStart
    requires j == (v - DoubleStart) / MaxSingleSize && k == (v - DoubleStart) % MaxSingleSize
    requires r.vol.hdr.singleIndex != Absent && r.vol.hdr.doubleIndex != Absent
    requires AppendDouble(r, j, k).Done?
    ensures Stepped(r, AppendDouble(r, j, k).value, v)
  {
    var st := r.vol;
    var h := st.hdr;
    var di := h.doubleIndex;
    assert InRange(di) && st.bits[di] && Genuine(st.disk[di]) by {
      assert RoleSector(h, st.disk, DoubleRole) == di;
    }
    assert InRange(h.singleIndex) by {
      assert RoleSector(h, st.disk, SingleRole) == h.singleIndex;
    }
    var d := Fetched(r.d, st.disk[di]);
    FetchedSlots(r.d, st.disk[di]);
    if d.slots[j] == Absent {
      AppendDoubleNewSub(r, v, j, k);
    } else {
      var ss := d.slots[j];
      assert SubBlock(st, ss, j) by {
        if j < StoredSlots {
          assert RoleSector(h, st.disk, DoubleSub(j)) == ss;
        } else {
          assert Orphan(st, r.d.slots[j]);
        }
      }
      if Fetched(r.s, st.disk[ss]).slots[k] != Absent {
        DoublePopulated(r, v, j, k);
      } else {
        DoubleDraws(r, v, j, k);
      }
    }
  }

  /** Sector ss can serve as sub-block j: it lies on the disk, is marked,
      holds a genuine image, and no role other than sub-block j lives there. */
  ghost predicate SubBlock(st: Vol, ss: int, j: nat)
    requires VolOk(st)
  {
    InRange(ss) && st.bits[ss] && Genuine(st.disk[ss]) &&
    forall rl :: ValidRole(rl) && rl != DoubleSub(j) ==> RoleSector(st.hdr, st.disk, rl) != ss
  }

  /** The shared premises of the two cases where sub-block j exists. */
  ghost predicate SubExists(r: Run, v: nat, j: nat, k: nat)
    requires RunOk(r)
  {
    var st := r.vol;
    DoubleStart <= v < TripleStart &&
    j == (v - DoubleStart) / MaxSingleSize && k == (v - DoubleStart) % MaxSingleSize &&
    InRange(st.hdr.singleIndex) && InRange(st.hdr.doubleIndex) && Genuine(st.disk[st.hdr.doubleIndex]) &&
    var d := Fetched(r.d, st.disk[st.hdr.doubleIndex]);
    d.slots[j] != Absent && SubBlock(st, d.slots[j], j)
  }

  /** A populated data slot: only the objects change, to the blocks read. */
  lemma DoublePopulated(r: Run, v: nat, j: nat, k: nat)
    requires RunOk(r) && Consistent(r.vol) && Carried(r) && SubExists(r, v, j, k)
    requires var d := Fetched(r.d, r.vol.disk[r.vol.hdr.doubleIndex]);
      Fetched(r.s, r.vol.disk[d.slots[j]]).slots[k] != Absent
    ensures AppendDouble(r, j, k).Done?
    ensures Stepped(r, AppendDouble(r, j, k).value, v)
  {
    var st := r.vol;
    var h := st.hdr;
    var di := h.doubleIndex;
    var d := Fetched(r.d, st.disk[di]);
    FetchedSlots(r.d, st.disk[di]);
    var ss := d.slots[j];
    var s := Fetched(r.s, st.disk[ss]);
    FetchedSlots(r.s, st.disk[ss]);
    ClassifyPosition(v);
    assert h.(doubleIndex := di) == h;
    assert AppendDouble(r, j, k) == Done(Run(st, s, d));
    OrphansKept(st, st, r.d, d);
    assert Persisted(v) ==> Filled(st, v);
  }

  /** An absent data slot of an existing sub-block: slot k gets the drawn sector. */
  lemma DoubleDraws(r: Run, v: nat, j: nat, k: nat)
    requires RunOk(r) && Consistent(r.vol) && Carried(r) && SubExists(r, v, j, k)
    requires var d := Fetched(r.d, r.vol.disk[r.vol.hdr.doubleIndex]);
      Fetched(r.s, r.vol.disk[d.slots[j]]).slots[k] == Absent
    ensures AppendDouble(r, j, k).Done?
    ensures Stepped(r, AppendDouble(r, j, k).value, v)
  {
    var st := r.vol;
    var h := st.hdr;
    var di := h.doubleIndex;
    var d := Fetched(r.d, st.disk[di]);
    var ss := d.slots[j];
    var s := Fetched(r.s, st.disk[ss]);
    FetchedSlots(r.s, st.disk[ss]);
    assert h.(doubleIndex := di) == h;
    assert ss != di by {
      assert RoleSector(h, st.disk, DoubleRole) == di;
    }
    var g := Granted(st.bits);
    GrantCost(st.bits);
    var s' := s.(slots := s.slots[k := g.sector]);
    ImageOfFetched(r.s, st.disk[ss]);
    ImageWithSlot(s, k, g.sector);
    ImageOfFetched(r.d, st.disk[di]);
    var disk' := st.disk[ss := WithSlot(st.disk[ss], k, g.sector)];
    assert st.disk[ss := Image(s')][di := Image(d)] == disk';
    var r' := Run(Vol(h, disk', g.bits), s', d);
    assert AppendDouble(r, j, k) == Done(r');
    DoubleSlotGrown(r, r', v, j, k, ss, g.sector);
  }

  /** Setting slot k of sub-block ss to x is Grown. */
  lemma DoubleSlotGrown(r: Run, r': Run, v: nat, j: nat, k: nat, ss: int, x: int)
    requires RunOk(r) && RunOk(r') && Consistent(r.vol) && Carried(r) && SubExists(r, v, j, k)
    requires ss == Fetched(r.d, r.vol.disk[r.vol.hdr.doubleIndex]).slots[j]
    requires r'.vol.hdr == r.vol.hdr && r'.vol.disk == r.vol.disk[ss := WithSlot(r.vol.disk[ss], k, x)]
    requires forall y :: 0 <= y < NumSectors && r.vol.bits[y] ==> r'.vol.bits[y]
    requires x == Absent ==> CountClear(r'.vol.bits) == 0
    requires x != Absent ==> InRange(x) && !r.vol.bits[x] && r'.vol.bits[x]
    requires r'.s.vptr == Vtable && r'.d == Fetched(r.d, r.vol.disk[r.vol.hdr.doubleIndex])
    ensures Stepped(r, r', v)
  {
    var st, st' := r.vol, r'.vol;
    var h := st.hdr;
    var di := h.doubleIndex;
    FetchedSlots(r.d, st.disk[di]);
    ClassifyPosition(v);
    WithSlotReads(st.disk[ss], k, x);
    assert ss != di && ss != h.tripleIndex by {
      assert RoleSector(h, st.disk, DoubleRole) == di;
      assert RoleSector(h, st.disk, TripleRole) == h.tripleIndex;
    }
    RolesKept(st, st');
    OrphansKept(st, st', r.d, r'.d);
    forall u | u != v
      ensures SectorAt(st'.hdr, st'.disk, u) == SectorAt(st.hdr, st.disk, u)
    {
      if u >= 0 {
        ClassifyPosition(u);
      }
      DoubleSlotLookupKept(st, st', ss, j, k, x, u);
    }
    if Persisted(v) {
      assert ReadSlot(st.disk[di], j) == ss;
    }
    if x != Absent {
      FreeNotRole(st, x);
    }
  }

  /** Writing slot k of sub-block j leaves every other answering lookup alone. */
  lemma DoubleSlotLookupKept(st: Vol, st': Vol, ss: int, j: nat, k: nat, x: int, u: int)
    requires VolOk(st) && VolOk(st') && Consistent(st) && j < SlotsPerBlock && k < SlotsPerBlock
    requires SubBlock(st, ss, j) && st'.hdr == st.hdr
    requires st'.disk == st.disk[ss := WithSlot(st.disk[ss], k, x)]
    requires u >= 0 ==> Classify(u) != Double(j, k)
    ensures SectorAt(st'.hdr, st'.disk, u) == SectorAt(st.hdr, st.disk, u)
  {
    var h := st.hdr;
    WithSlotReads(st.disk[ss], k, x);
    if u >= 0 {
      match Classify(u)
      case Single(i) =>
        assert RoleSector(h, st.disk, SingleRole) != ss;
      case Double(j', i) =>
        assert RoleSector(h, st.disk, DoubleRole) != ss;
        if j' != j {
          assert RoleSector(h, st.disk, DoubleSub(j')) != ss;
        }
      case Triple(t, j', i) =>
        assert RoleSector(h, st.disk, TripleRole) != ss;
        assert RoleSector(h, st.disk, TripleSub(t)) != ss;
      case _ =>
    }
  }

  /** Sub-block j is missing: a free sector becomes it, holding a fresh
      object's image with slot k drawn, and the top block's slot j names it. */
  lemma AppendDoubleNewSub(r: Run, v: nat, j: nat, k: nat)
    requires RunOk(r) && Consistent(r.vol) && Carried(r) && DoubleStart <= v < TripleStart
    requires j == (v - DoubleStart) / MaxSingleSize && k == (v - DoubleStart) % MaxSingleSize
    requires InRange(r.vol.hdr.singleIndex) && InRange(r.vol.hdr.doubleIndex)
    requires r.vol.bits[r.vol.hdr.doubleIndex] && Genuine(r.vol.disk[r.vol.hdr.doubleIndex])
    requires Fetched(r.d, r.vol.disk[r.vol.hdr.doubleIndex]).slots[j] == Absent
    requires AppendDouble(r, j, k).Done?
    ensures Stepped(r, AppendDouble(r, j, k).value, v)
  {
    var st := r.vol;
    var h := st.hdr;
    var di := h.doubleIndex;
    var d := Fetched(r.d, st.disk[di]);
    var g1 := Granted(st.bits);
    var g2 := Granted(g1.bits);
    GrantCost(st.bits);
    GrantCost(g1.bits);
    var ss := g1.sector;
    var x := g2.sector;
    var d' := d.(slots := d.slots[j := ss]);
    var s' := FreshObj().(slots := FreshObj().slots[k := x]);
    assert h.(doubleIndex := di) == h;
    assert InRange(ss);
    ImageOfFetched(r.d, st.disk[di]);
    ImageWithSlot(d, j, ss);
    ImageWithSlot(FreshObj(), k, x);
    var disk' := st.disk[ss := WithSlot(BlankIndex(), k, x)][di := WithSlot(st.disk[di], j, ss)];
    var r' := Run(Vol(h, disk', g2.bits), s', d');
    assert AppendDouble(r, j, k) == Done(r');
    NewSubGrown(r, r', v, j, k, ss, x);
  }

  /** The state after hanging free sector ss into slot j of the top block is Grown. */
  lemma NewSubGrown(r: Run, r': Run, v: nat, j: nat, k: nat, ss: int, x: int)
    requires RunOk(r) && RunOk(r') && Consistent(r.vol) && Carried(r) && DoubleStart <= v < TripleStart
    requires j == (v - DoubleStart) / MaxSingleSize && k == (v - DoubleStart) % MaxSingleSize
    requires InRange(r.vol.hdr.singleIndex) && InRange(r.vol.hdr.doubleIndex)
    requires r.vol.bits[r.vol.hdr.doubleIndex] && Genuine(r.vol.disk[r.vol.hdr.doubleIndex])
    requires Fetched(r.d, r.vol.disk[r.vol.hdr.doubleIndex]).slots[j] == Absent
    requires InRange(ss) && !r.vol.bits[ss] && r'.vol.bits[ss]
    requires var st := r.vol; var di := st.hdr.doubleIndex;
      r'.vol.hdr == st.hdr &&
      r'.vol.disk == st.disk[ss := WithSlot(BlankIndex(), k, x)][di := WithSlot(st.disk[di], j, ss)]
    requires forall y :: 0 <= y < NumSectors && r.vol.bits[y] ==> r'.vol.bits[y]
    requires x == Absent ==> CountClear(r'.vol.bits) == 0
    requires x != Absent ==> InRange(x) && x != ss && !r.vol.bits[x] && r'.vol.bits[x]
    requires r'.s.vptr == Vtable
    requires var d := Fetched(r.d, r.vol.disk[r.vol.hdr.doubleIndex]); r'.d == d.(slots := d.slots[j := ss])
    ensures Stepped(r, r', v)
  {
    var st, st' := r.vol, r'.vol;
    var h := st.hdr;
    var di := h.doubleIndex;
    FetchedSlots(r.d, st.disk[di]);
    ClassifyPosition(v);
    BlankIndexReads();
    WithSlotReads(BlankIndex(), k, x);
    WithSlotReads(st.disk[di], j, ss);
    NewSubConsistent(st, st', j, k, ss, x);
    OrphansKept(st, st', r.d, r'.d);
    forall u | u != v
      ensures SectorAt(st'.hdr, st'.disk, u) == SectorAt(st.hdr, st.disk, u)
    {
      if u >= 0 {
        ClassifyPosition(u);
      }
      NewSubLookupKept(st, st', j, k, ss, x, u);
    }
    if x != Absent {
      FreeNotRole(st, x);
    }
  }

  /** Hanging free sector ss, holding a genuine image, into slot j of the
      top block keeps the invariant; ss then names no role but sub-block j. */
  lemma NewSubConsistent(st: Vol, st': Vol, j: nat, k: nat, ss: int, x: int)
    requires VolOk(st) && VolOk(st') && Consistent(st) && j < SlotsPerBlock && k < SlotsPerBlock
    requires var di := st.hdr.doubleIndex; InRange(di) && ReadSlot(st.disk[di], j) == Absent
    requires InRange(ss) && !st.bits[ss] && st'.bits[ss]
    requires var di := st.hdr.doubleIndex;
      st'.hdr == st.hdr &&
      st'.disk == st.disk[ss := WithSlot(BlankIndex(), k, x)][di := WithSlot(st.disk[di], j, ss)]
    requires forall y :: 0 <= y < NumSectors && st.bits[y] ==> st'.bits[y]
    ensures Consistent(st') && RolesGrow(st, st') && GenuineKept(st, st')
    ensures forall rl :: ValidRole(rl) && rl != DoubleSub(j) ==> RoleSector(st'.hdr, st'.disk, rl) != ss
    ensures forall rl :: ValidRole(rl) ==>
      RoleSector(st'.hdr, st'.disk, rl) == RoleSector(st.hdr, st.disk, rl) || RoleSector(st'.hdr, st'.disk, rl) == ss
  {
    var h := st.hdr;
    var di := h.doubleIndex;
    BlankIndexReads();
    WithSlotReads(BlankIndex(), k, x);
    WithSlotReads(st.disk[di], j, ss);
    assert di != ss && h.tripleIndex != ss && h.tripleIndex != di by {
      assert RoleSector(h, st.disk, DoubleRole) == di;
      assert RoleSector(h, st.disk, TripleRole) == h.tripleIndex;
    }
    var mid := Vol(h, st.disk[ss := WithSlot(BlankIndex(), k, x)], st.bits);
    RolesKept(st, mid);
    assert st'.disk[ss] == mid.disk[ss];
    if j < StoredSlots {
      forall rl | ValidRole(rl) && rl != DoubleSub(j)
        ensures RoleSector(st'.hdr, st'.disk, rl) == RoleSector(mid.hdr, mid.disk, rl)
      {
      }
      RoleAdded(mid, st', DoubleSub(j), ss);
    } else {
      assert st'.disk[di] == mid.disk[di];
      RolesKept(mid, st');
    }
    RolesGrowCompose(st, mid, st');
  }

  /** Hanging free sector ss, holding a fresh image with slot k set, into
      slot j of the top block changes no lookup but that of sub-block j's
      slot k. */
  lemma NewSubLookupKept(st: Vol, st': Vol, j: nat, k: nat, ss: int, x: int, u: int)
    requires VolOk(st) && VolOk(st') && Consistent(st) && j < SlotsPerBlock && k < SlotsPerBlock
    requires var di := st.hdr.doubleIndex; InRange(di) && ReadSlot(st.disk[di], j) == Absent
    requires InRange(ss) && !st.bits[ss] && st'.hdr == st.hdr
    requires forall y :: 0 <= y < NumSectors && y != ss && y != st.hdr.doubleIndex ==> st'.disk[y] == st.disk[y]
    requires var di := st.hdr.doubleIndex; st'.disk[di] == WithSlot(st.disk[di], j, ss)
    requires st'.disk[ss] == WithSlot(BlankIndex(), k, x)
    requires u >= 0 ==> Classify(u) != Double(j, k)
    ensures SectorAt(st'.hdr, st'.disk, u) == SectorAt(st.hdr, st.disk, u)
  {
    var h := st.hdr;
    var di := h.doubleIndex;
    WithSlotReads(st.disk[di], j, ss);
    if u >= 0 {
      match Classify(u)
      case Single(i) =>
        assert RoleSector(h, st.disk, SingleRole) != RoleSector(h, st.disk, DoubleRole);
        assert h.singleIndex != Absent ==> st.bits[RoleSector(h, st.disk, SingleRole)];
      case Double(j', i) =>
        if j' == j {
          BlankIndexReads();
          WithSlotReads(BlankIndex(), k, x);
        } else {
          assert RoleSector(h, st.disk, DoubleSub(j')) != RoleSector(h, st.disk, DoubleRole);
          assert RoleSector(h, st.disk, DoubleSub(j')) != Absent ==> st.bits[RoleSector(h, st.disk, DoubleSub(j'))];
        }
      case Triple(t, j', i) =>
        if InRange(h.tripleIndex) {
          assert RoleSector(h, st.disk, TripleRole) != RoleSector(h, st.disk, DoubleRole);
          assert st.bits[RoleSector(h, st.disk, TripleRole)];
          if RoleSector(h, st.disk, TripleSub(t)) != Absent {
            assert RoleSector(h, st.disk, TripleSub(t)) != RoleSector(h, st.disk, DoubleRole);
            assert st.bits[RoleSector(h, st.disk, TripleSub(t))];
          }
        }
      case _ =>
    }
  }

  // ---------------------------------------------------------------------
  // One iteration, the whole loop, and Append.

  /** Below the triple tier an iteration is the step of the index's tier. */
  lemma AppendSectorCases(r: Run, v: int)
    requires RunOk(r) && 0 <= v < TripleStart
    ensures v < SingleStart ==> AppendSector(r, v) == AppendDirect(r, v)
    ensures SingleStart <= v < DoubleStart ==> AppendSector(r, v) == AppendSingle(r, v - SingleStart)
    ensures DoubleStart <= v ==>
      AppendSector(r, v) == AppendDouble(r, (v - DoubleStart) / MaxSingleSize, (v - DoubleStart) % MaxSingleSize)
  {
    AppendAgreesBelowTriple(v);
  }

  /** An iteration below the triple tier, on a consistent header whose
      single-indirect block exists once the double tier is reached. */
  lemma AppendSectorGrows(r: Run, v: int, r': Run)
    requires RunOk(r) && Consistent(r.vol) && Carried(r) && 0 <= v < TripleStart
    requires v >= DoubleStart ==> r.vol.hdr.singleIndex != Absent
    requires StepsTo(r, v, r')
    ensures RunOk(r') && Grown(r, r', v)
    ensures v >= SingleStart ==> r'.vol.hdr.singleIndex != Absent
  {
    AppendSectorStepped(r, v, r');
  }

  /** The same iteration is also Tidy: what AppendSectorGrows promises,
      and what the data-sector invariant needs. */
  lemma AppendSectorStepped(r: Run, v: int, r': Run)
    requires RunOk(r) && Consistent(r.vol) && Carried(r) && 0 <= v < TripleStart
    requires v >= DoubleStart ==> r.vol.hdr.singleIndex != Absent
    requires StepsTo(r, v, r')
    ensures RunOk(r') && Stepped(r, r', v)
    ensures v >= SingleStart ==> r'.vol.hdr.singleIndex != Absent
  {
    AppendSectorCases(r, v);
    if v < NumDirect {
      AppendDirectGrows(r, v);
    } else if v < DoubleStart {
      AppendSingleGrows(r, v);
    } else {
      AppendDoubleGrows(r, v);
    }
  }

  /** The single-indirect step halts only when no sector is free. */
  lemma AppendSingleDoneWhenFree(r: Run, k: nat)
    requires RunOk(r) && Consistent(r.vol) && k < MaxSingleSize && CountClear(r.vol.bits) >= 1
    ensures AppendSingle(r, k).Done?
  {
    var st := r.vol;
    var h := st.hdr;
    GrantCost(st.bits);
    assert h.singleIndex != Absent ==> InRange(h.singleIndex) by {
      assert RoleSector(h, st.disk, SingleRole) == h.singleIndex;
    }
  }

  /** The double-indirect step halts only when fewer than two sectors are free. */
  lemma AppendDoubleDoneWhenFree(r: Run, j: nat, k: nat)
    requires RunOk(r) && Consistent(r.vol) && Carried(r) && j < MaxSingleSize && k < MaxSingleSize
    requires CountClear(r.vol.bits) >= 2
    ensures AppendDouble(r, j, k).Done?
  {
    var st := r.vol;
    var h := st.hdr;
    GrantCost(st.bits);
    var g := Granted(st.bits);
    GrantCost(g.bits);
    assert h.doubleIndex != Absent ==> InRange(h.doubleIndex) by {
      assert RoleSector(h, st.disk, DoubleRole) == h.doubleIndex;
    }
    if h.doubleIndex != Absent {
      var d := Fetched(r.d, st.disk[h.doubleIndex]);
      FetchedSlots(r.d, st.disk[h.doubleIndex]);
      if d.slots[j] != Absent {
        if j < StoredSlots {
          assert RoleSector(h, st.disk, DoubleSub(j)) == d.slots[j];
        } else {
          assert Orphan(st, r.d.slots[j]);
        }
      }
    }
  }

  /** Below the triple tier an iteration halts only when fewer than two
      sectors are free: a missing index block is drawn from the bitmap and
      the disk refuses sector -1. */
  lemma AppendSectorHaltsOnlyWhenFull(r: Run, v: int)
    requires RunOk(r) && Consistent(r.vol) && Carried(r) && 0 <= v < TripleStart
    requires CountClear(r.vol.bits) >= 2
    ensures AppendSector(r, v).Done?
  {
    AppendSectorCases(r, v);
    if v < SingleStart {
    } else if v < DoubleStart {
      AppendSingleDoneWhenFree(r, v - SingleStart);
    } else {
      AppendDoubleDoneWhenFree(r, (v - DoubleStart) / MaxSingleSize, (v - DoubleStart) % MaxSingleSize);
    }
  }

  /** Iterations over slots that are already populated change neither the
      header, the disk nor the bitmap: the loop's `continue` branches. */
  lemma AppendSectorFilledNoop(r: Run, v: int)
    requires RunOk(r) && Consistent(r.vol) && Carried(r) && 0 <= v < TripleStart && Filled(r.vol, v)
    ensures AppendSector(r, v).Done?
    ensures AppendSector(r, v).value.vol == r.vol && Carried(AppendSector(r, v).value)
  {
    AppendSectorCases(r, v);
    ClassifyPosition(v);
    var st := r.vol;
    var h := st.hdr;
    if SingleStart <= v < DoubleStart {
      var si := h.singleIndex;
      FetchedSlots(r.s, st.disk[si]);
      assert h.(singleIndex := si) == h;
    } else if DoubleStart <= v {
      var j, k := (v - DoubleStart) / MaxSingleSize, (v - DoubleStart) % MaxSingleSize;
      var di := h.doubleIndex;
      FetchedSlots(r.d, st.disk[di]);
      var d := Fetched(r.d, st.disk[di]);
      FetchedSlots(r.s, st.disk[d.slots[j]]);
      assert h.(doubleIndex := di) == h;
      OrphansKept(st, st, r.d, d);
    }
  }

  /** Append's loop never writes the byte and sector counts, the type, the
      parent or the triple pointer. */
  lemma AppendAllKeepsCounters(r: Run, first: int, k: nat)
    requires RunOk(r) && AppendAll(r, first, k).Done?
    ensures SameCounters(r.vol.hdr, AppendAll(r, first, k).value.vol.hdr)
  {
    ReachesKeepsCounters(r, first, k, AppendAll(r, first, k).value);
  }

  lemma {:induction false} ReachesKeepsCounters(r: Run, first: int, k: nat, r': Run)
    requires RunOk(r) && Reaches(r, first, k, r')
    ensures SameCounters(r.vol.hdr, r'.vol.hdr)
    decreases k
  {
    if k > 0 {
      var s, v := AppendAllLast(r, first, k, r');
      ReachesKeepsCounters(r, first, k - 1, s);
      StepKeepsCounters(s, v, r');
    }
  }

  lemma StepKeepsCounters(s: Run, v: int, r': Run)
    requires RunOk(s) && StepsTo(s, v, r')
    ensures SameCounters(s.vol.hdr, r'.vol.hdr)
  {
    AppendSectorKeepsCounters(s, v);
  }

  /** One iteration never writes the counters, the type, the parent or the triple pointer. */
  lemma AppendSectorKeepsCounters(r: Run, v: int)
    requires RunOk(r) && AppendSector(r, v).Done?
    ensures SameCounters(r.vol.hdr, AppendSector(r, v).value.vol.hdr)
  {
  }

  /** What the first k iterations promise: the invariant, the untouched
      counters, the answers outside the range, and every index in the range
      whose slots are stored ones names a sector unless the bitmap ran out. */
  ghost predicate GrownAll(st: Vol, st': Vol, first: int, k: nat)
    requires VolOk(st) && VolOk(st')
  {
    Consistent(st') && SameCounters(st.hdr, st'.hdr) && Settled(st, st') &&
    (forall u :: !(first <= u < first + k) && SectorAt(st.hdr, st.disk, u).Sector? ==>
       SectorAt(st'.hdr, st'.disk, u) == SectorAt(st.hdr, st.disk, u)) &&
    (forall v :: first <= v < first + k && Persisted(v) ==> Filled(st', v) || CountClear(st'.bits) == 0)
  }

  lemma AppendAllGrows(r: Run, first: int, k: nat, r': Run)
    requires RunOk(r) && Consistent(r.vol) && Carried(r) && 0 <= first && first + k <= TripleStart
    requires first >= DoubleStart ==> r.vol.hdr.singleIndex != Absent
    requires AppendAll(r, first, k) == Done(r')
    ensures RunOk(r') && Carried(r') && GrownAll(r.vol, r'.vol, first, k)
    ensures first + k >= DoubleStart ==> r'.vol.hdr.singleIndex != Absent
  {
    ReachesGrows(r, first, k, r');
  }

  lemma {:induction false} ReachesGrows(r: Run, first: int, k: nat, r': Run)
    requires RunOk(r) && Consistent(r.vol) && Carried(r) && 0 <= first && first + k <= TripleStart
    requires first >= DoubleStart ==> r.vol.hdr.singleIndex != Absent
    requires Reaches(r, first, k, r')
    ensures RunOk(r') && Carried(r') && GrownAll(r.vol, r'.vol, first, k)
    ensures first + k >= DoubleStart ==> r'.vol.hdr.singleIndex != Absent
    decreases k
  {
    if k > 0 {
      var s, v := AppendAllLast(r, first, k, r');
      ReachesGrows(r, first, k - 1, s);
      AppendAllGrowsStep(r, s, r', first, k, v);
    }
  }

  /** The step of AppendAllGrows: the iteration for first + k - 1 after k - 1 others. */
  lemma AppendAllGrowsStep(r: Run, s: Run, r': Run, first: int, k: nat, v: int)
    requires RunOk(r) && RunOk(s) && 0 <= first && k > 0 && v == first + k - 1 && v < TripleStart
    requires Carried(s) && GrownAll(r.vol, s.vol, first, k - 1)
    requires v >= DoubleStart ==> s.vol.hdr.singleIndex != Absent
    requires StepsTo(s, v, r')
    ensures RunOk(r') && Carried(r') && GrownAll(r.vol, r'.vol, first, k)
    ensures v + 1 >= DoubleStart ==> r'.vol.hdr.singleIndex != Absent
  {
    AppendSectorGrows(s, v, r');
    GrownCompose(r.vol, s, r', first, k);
  }

  /** k - 1 iterations followed by the iteration for first + k - 1 make k iterations. */
  lemma GrownCompose(st: Vol, s: Run, r': Run, first: int, k: nat)
    requires VolOk(st) && RunOk(s) && RunOk(r') && k > 0
    requires GrownAll(st, s.vol, first, k - 1) && Grown(s, r', first + k - 1)
    ensures GrownAll(st, r'.vol, first, k)
  {
    var v := first + k - 1;
    var sv, st' := s.vol, r'.vol;
    forall u | !(first <= u < first + k) && SectorAt(st.hdr, st.disk, u).Sector?
      ensures SectorAt(st'.hdr, st'.disk, u) == SectorAt(st.hdr, st.disk, u)
    {
      assert SectorAt(sv.hdr, sv.disk, u) == SectorAt(st.hdr, st.disk, u);
    }
    forall w | first <= w < first + k && Persisted(w)
      ensures Filled(st', w) || CountClear(st'.bits) == 0
    {
      if w < v && !Filled(sv, w) {
        assert CountClear(sv.bits) == 0;
        assert forall x :: 0 <= x < |st'.bits| ==> st'.bits[x] by {
          assert forall x :: 0 <= x < |sv.bits| ==> sv.bits[x];
        }
      }
    }
  }

  /** Append's objects start out as constructed, which the loop's invariant allows. */
  lemma StartCarried(st: Vol)
    requires VolOk(st)
    ensures Carried(Start(st))
  {
  }

  // A negative sector count makes the loop's first indices negative; those
  // iterations do nothing, so the loop acts as one from index 0 on.

  /** The first non-negative index of the loop over first .. first + k - 1. */
  function LoopStart(first: int): nat
  {
    if first < 0 then 0 else first
  }

  /** The number of the loop's indices from LoopStart(first) on. */
  function LoopCount(first: int, k: nat): nat
  {
    if first >= 0 then k else if first + k > 0 then first + k else 0
  }

  /** The loop from a negative index skips every negative index. */
  lemma {:induction false} AppendAllSkipsNegative(r: Run, first: int, k: nat)
    requires RunOk(r)
    ensures AppendAll(r, first, k) == AppendAll(r, LoopStart(first), LoopCount(first, k))
    decreases k
  {
    if first < 0 && k > 0 {
      AppendAllSkipsNegative(r, first, k - 1);
      var v, n := first + k - 1, LoopCount(first, k - 1);
      if v >= 0 {
        AppendAllNext(r, first, k - 1, 0, n);
        assert LoopCount(first, k) == n + 1;
      } else {
        AppendAllStep(r, first, k - 1, r);
        AppendSectorBelowZero(r, v);
      }
    }
  }

  /** An iteration for a negative index does nothing. */
  lemma AppendSectorBelowZero(r: Run, v: int)
    requires RunOk(r) && v < 0
    ensures AppendSector(r, v) == Done(r)
  {
  }

  /** Two runs that agree and end at the same index still agree one iteration later. */
  lemma AppendAllNext(r: Run, first: int, k: nat, first': int, k': nat)
    requires RunOk(r) && first + k == first' + k'
    requires AppendAll(r, first, k) == AppendAll(r, first', k')
    ensures AppendAll(r, first, k + 1) == AppendAll(r, first', k' + 1)
  {
    if AppendAll(r, first, k).Done? {
      var cur := AppendAll(r, first, k).value;
      AppendAllStep(r, first, k, cur);
      AppendAllStep(r, first', k', cur);
    }
  }

  /** Growth of the loop's non-negative part is growth of the whole loop:
      the negative indices outside it answer -1 on every header and none of
      them is persisted. */
  lemma GrownAllSkipsNegative(st: Vol, st': Vol, first: int, k: nat)
    requires VolOk(st) && VolOk(st')
    requires GrownAll(st, st', LoopStart(first), LoopCount(first, k))
    ensures GrownAll(st, st', first, k)
  {
    if first < 0 {
      forall u | !(first <= u < first + k) && SectorAt(st.hdr, st.disk, u).Sector?
        ensures SectorAt(st'.hdr, st'.disk, u) == SectorAt(st.hdr, st.disk, u)
      {
        if u >= 0 {
          assert !(LoopStart(first) <= u < LoopStart(first) + LoopCount(first, k));
        }
      }
    }
  }

  /** FileHeader::Append: it fails, changing nothing, exactly when the
      sectors to add outnumber the free ones; when it succeeds, the header
      is still consistent, no answering lookup outside the new range moved,
      every new index whose slots are stored names a sector unless the
      bitmap ran out, and it left numBytes and numSectors as they were,
      which must already agree. */
  lemma AppendSpecGrows(st: Vol, bytesToAdd: int)
    requires VolOk(st) && Consistent(st)
    requires var n := CDivRoundUp(bytesToAdd, SectorSize);
      st.hdr.numSectors + (if n < 0 then 0 else n) <= TripleStart
    requires st.hdr.numSectors >= DoubleStart ==> st.hdr.singleIndex != Absent
    requires AppendSpec(st, bytesToAdd).Done?
    ensures var n := CDivRoundUp(bytesToAdd, SectorSize);
      var a := AppendSpec(st, bytesToAdd).value;
      VolOk(a.vol) &&
      (a.ok <==> n <= CountClear(st.bits)) &&
      (!a.ok ==> a.vol == st) &&
      (a.ok ==> GrownAll(st, a.vol, st.hdr.numSectors, if n < 0 then 0 else n) &&
                CDivRoundUp(st.hdr.numBytes, SectorSize) == st.hdr.numSectors)
  {
    var n := CDivRoundUp(bytesToAdd, SectorSize);
    if n <= CountClear(st.bits) {
      var first, k := st.hdr.numSectors, if n < 0 then 0 else n;
      StartCarried(st);
      AppendAllSkipsNegative(Start(st), first, k);
      var r' := AppendAll(Start(st), first, k).value;
      AppendAllGrows(Start(st), LoopStart(first), LoopCount(first, k), r');
      GrownAllSkipsNegative(st, r'.vol, first, k);
    }
  }

  /** An iteration that is Steady on an ordered header keeps the data
      sectors the header's own: the other lookups answer as before, and a
      sector newly named was free and is not an index block. */
  lemma DataStep(st: Vol, st': Vol, v: int)
    requires VolOk(st) && VolOk(st') && DataOk(st)
    requires Settled(st, st') && RolesGrow(st, st') && FreshAt(st, st', v)
    requires Ordered(st'.hdr) && Unmoved(st, st', v)
    ensures DataOk(st')
  {
    forall u | Filled(st', u)
      ensures InRange(SectorAt(st'.hdr, st'.disk, u).sector) && st'.bits[SectorAt(st'.hdr, st'.disk, u).sector]
    {
      if SectorAt(st'.hdr, st'.disk, u) == SectorAt(st.hdr, st.disk, u) {
        assert Filled(st, u);
      }
    }
    forall u, w | u != w && Filled(st', u) && Filled(st', w)
      ensures SectorAt(st'.hdr, st'.disk, u) != SectorAt(st'.hdr, st'.disk, w)
    {
      if SectorAt(st'.hdr, st'.disk, u) != SectorAt(st.hdr, st.disk, u) {
        assert Filled(st, w);
      } else if SectorAt(st'.hdr, st'.disk, w) != SectorAt(st.hdr, st.disk, w) {
        assert Filled(st, u);
      } else {
        assert Filled(st, u) && Filled(st, w);
      }
    }
    forall u, rl | Filled(st', u) && ValidRole(rl)
      ensures SectorAt(st'.hdr, st'.disk, u).sector != RoleSector(st'.hdr, st'.disk, rl)
    {
      if SectorAt(st'.hdr, st'.disk, u) == SectorAt(st.hdr, st.disk, u) {
        assert Filled(st, u);
      }
    }
  }

  /** What the loop keeps when it starts from a header that owns its data
      sectors: its own invariants and the data-sector invariant. */
  ghost predicate Owned(r: Run)
    requires RunOk(r)
  {
    Consistent(r.vol) && Carried(r) && DataOk(r.vol)
  }

  lemma ReachesNone(r: Run, first: int, r': Run)
    requires RunOk(r) && Reaches(r, first, 0, r')
    ensures r' == r
  {
  }

  /** One iteration below the triple tier keeps the data-sector invariant
      along with the loop's own. */
  lemma StepKeepsData(s: Run, v: int, r': Run)
    requires RunOk(s) && Owned(s) && 0 <= v < TripleStart
    requires v >= DoubleStart ==> s.vol.hdr.singleIndex != Absent
    requires StepsTo(s, v, r')
    ensures RunOk(r') && Owned(r')
    ensures v >= SingleStart ==> r'.vol.hdr.singleIndex != Absent
  {
    AppendSectorStepped(s, v, r');
    DataStep(s.vol, r'.vol, v);
  }

  /** The step of ReachesKeepsData: the iteration for first + k - 1. */
  lemma KeepsDataStep(s: Run, r': Run, first: int, k: nat, v: int)
    requires RunOk(s) && Owned(s) && 0 <= first && k > 0 && v == first + k - 1 && v < TripleStart
    requires first + k - 1 >= DoubleStart ==> s.vol.hdr.singleIndex != Absent
    requires StepsTo(s, v, r')
    ensures RunOk(r') && Owned(r')
    ensures first + k >= DoubleStart ==> r'.vol.hdr.singleIndex != Absent
  {
    StepKeepsData(s, v, r');
  }

  lemma {:induction false} ReachesKeepsData(r: Run, first: int, k: nat, r': Run)
    requires RunOk(r) && Owned(r) && 0 <= first && first + k <= TripleStart
    requires first >= DoubleStart ==> r.vol.hdr.singleIndex != Absent
    requires Reaches(r, first, k, r')
    ensures RunOk(r') && Owned(r')
    ensures first + k >= DoubleStart ==> r'.vol.hdr.singleIndex != Absent
    decreases k
  {
    if k == 0 {
      ReachesNone(r, first, r');
    } else {
      var s, v := AppendAllLast(r, first, k, r');
      ReachesKeepsData(r, first, k - 1, s);
      KeepsDataStep(s, r', first, k, v);
    }
  }

  /** FileHeader::Append keeps the data sectors the header's own: after it,
      every index whose lookup names a sector, old or new, names one that
      lies on the disk, is marked, and is named by no other index and by no
      index block, and the tier pointers are still set in order. */
  lemma AppendSpecKeepsData(st: Vol, bytesToAdd: int)
    requires VolOk(st) && Consistent(st) && DataOk(st)
    requires var n := CDivRoundUp(bytesToAdd, SectorSize);
      st.hdr.numSectors + (if n < 0 then 0 else n) <= TripleStart
    requires st.hdr.numSectors >= DoubleStart ==> st.hdr.singleIndex != Absent
    requires AppendSpec(st, bytesToAdd).Done?
    ensures DataOk(AppendSpec(st, bytesToAdd).value.vol)
  {
    var n := CDivRoundUp(bytesToAdd, SectorSize);
    if n <= CountClear(st.bits) {
      var first, k := st.hdr.numSectors, if n < 0 then 0 else n;
      StartCarried(st);
      AppendAllSkipsNegative(Start(st), first, k);
      ReachesKeepsData(Start(st), LoopStart(first), LoopCount(first, k), AppendAll(Start(st), first, k).value);
    }
  }

  /** Once the loop completes, the deletes of sinode and dinode are safe:
      the only way for Append to stop short of its result is the ASSERT. */
  lemma AppendDeletesSafely(st: Vol, bytesToAdd: int)
    requires VolOk(st) && Consistent(st)
    requires var n := CDivRoundUp(bytesToAdd, SectorSize);
      st.hdr.numSectors + (if n < 0 then 0 else n) <= TripleStart
    requires st.hdr.numSectors >= DoubleStart ==> st.hdr.singleIndex != Absent
    requires var n := CDivRoundUp(bytesToAdd, SectorSize);
      n <= CountClear(st.bits) && AppendAll(Start(st), st.hdr.numSectors, if n < 0 then 0 else n).Done?
    requires CDivRoundUp(st.hdr.numBytes, SectorSize) == st.hdr.numSectors
    ensures AppendSpec(st, bytesToAdd).Done? && AppendSpec(st, bytesToAdd).value.ok
  {
    var n := CDivRoundUp(bytesToAdd, SectorSize);
    var first, k := st.hdr.numSectors, if n < 0 then 0 else n;
    StartCarried(st);
    AppendAllSkipsNegative(Start(st), first, k);
    AppendAllGrows(Start(st), LoopStart(first), LoopCount(first, k), AppendAll(Start(st), first, k).value);
  }

  /** A header whose byte count does not round up to its sector count never
      completes an Append that passes the free-space check: the closing
      ASSERT fails. */
  lemma AppendUnsizedHalts(st: Vol, bytesToAdd: int)
    requires VolOk(st)
    requires CDivRoundUp(st.hdr.numBytes, SectorSize) != st.hdr.numSectors
    requires CDivRoundUp(bytesToAdd, SectorSize) <= CountClear(st.bits)
    ensures !AppendSpec(st, bytesToAdd).Done?
  {
    var n := CDivRoundUp(bytesToAdd, SectorSize);
    var k := if n < 0 then 0 else n;
    if AppendAll(Start(st), st.hdr.numSectors, k).Done? {
      AppendAllKeepsCounters(Start(st), st.hdr.numSectors, k);
    }
  }

  /** Appending over a range whose slots are all populated changes neither
      the header, the disk nor the bitmap. */
  lemma AppendAllFilledNoop(r: Run, first: int, k: nat)
    requires RunOk(r) && Consistent(r.vol) && Carried(r) && 0 <= first && first + k <= TripleStart
    requires forall v :: first <= v < first + k ==> Filled(r.vol, v)
    ensures AppendAll(r, first, k).Done?
    ensures AppendAll(r, first, k).value.vol == r.vol && Carried(AppendAll(r, first, k).value)
  {
    var r' := ReachesFilledNoop(r, first, k);
  }

  lemma {:induction false} ReachesFilledNoop(r: Run, first: int, k: nat) returns (r': Run)
    requires RunOk(r) && Consistent(r.vol) && Carried(r) && 0 <= first && first + k <= TripleStart
    requires forall v :: first <= v < first + k ==> Filled(r.vol, v)
    ensures RunOk(r') && Reaches(r, first, k, r') && r'.vol == r.vol && Carried(r')
    decreases k
  {
    if k == 0 {
      r' := r;
    } else {
      var s := ReachesFilledNoop(r, first, k - 1);
      r' := StepFilledNoop(r, first, k - 1, s);
    }
  }

  lemma StepFilledNoop(r: Run, first: int, k: nat, s: Run) returns (r': Run)
    requires RunOk(r) && Consistent(r.vol) && 0 <= first && first + k < TripleStart && Filled(r.vol, first + k)
    requires RunOk(s) && Reaches(r, first, k, s) && s.vol == r.vol && Carried(s)
    ensures RunOk(r') && Reaches(r, first, k + 1, r') && r'.vol == r.vol && Carried(r')
  {
    var v := first + k;
    assert Filled(s.vol, v);
    AppendSectorFilledNoop(s, v);
    r' := AppendSector(s, v).value;
    ReachesJoin(r, first, k, s, r');
  }

  /** Appending no bytes, or a negative count, succeeds and changes nothing
      when the header's counts agree. */
  lemma AppendNothing(st: Vol, bytesToAdd: int)
    requires VolOk(st) && bytesToAdd <= 0
    requires CDivRoundUp(st.hdr.numBytes, SectorSize) == st.hdr.numSectors
    ensures AppendSpec(st, bytesToAdd) == Done(Appended(true, st))
  {
  }

  /** An Append all of whose new indices are negative, which a negative
      sector count allows, succeeds and changes nothing once the free-space
      check and the closing ASSERT pass. */
  lemma AppendBelowZero(st: Vol, bytesToAdd: int)
    requires VolOk(st)
    requires var n := CDivRoundUp(bytesToAdd, SectorSize);
      n <= CountClear(st.bits) && st.hdr.numSectors + n <= 0
    requires CDivRoundUp(st.hdr.numBytes, SectorSize) == st.hdr.numSectors
    ensures AppendSpec(st, bytesToAdd) == Done(Appended(true, st))
  {
    var n := CDivRoundUp(bytesToAdd, SectorSize);
    AppendAllSkipsNegative(Start(st), st.hdr.numSectors, if n < 0 then 0 else n);
  }

  /** Appending over sectors that are all already in place succeeds and
      changes nothing. */
  lemma AppendOverFilled(st: Vol, bytesToAdd: int)
    requires VolOk(st) && Consistent(st)
    requires CDivRoundUp(st.hdr.numBytes, SectorSize) == st.hdr.numSectors
    requires var n := CDivRoundUp(bytesToAdd, SectorSize);
      n <= CountClear(st.bits) &&
      st.hdr.numSectors + (if n < 0 then 0 else n) <= TripleStart &&
      forall v :: st.hdr.numSectors <= v < st.hdr.numSectors + n ==> Filled(st, v)
    ensures AppendSpec(st, bytesToAdd) == Done(Appended(true, st))
  {
    var n := CDivRoundUp(bytesToAdd, SectorSize);
    var first, k := st.hdr.numSectors, if n < 0 then 0 else n;
    StartCarried(st);
    AppendAllSkipsNegative(Start(st), first, k);
    AppendAllFilledNoop(Start(st), LoopStart(first), LoopCount(first, k));
  }

  // ---------------------------------------------------------------------
  // FileHeader::ByteToINodeSector (filehdr.cc:358-455): a lookup that
  // draws missing index blocks and data sectors on the way. Each call
  // builds its own inode objects and deletes them before it returns.

  /** The sector found, and the header, disk and bitmap afterwards. */
  datatype Located = Located(sector: int, vol: Vol)

  /** A method's answer r, with the state st' it leaves, is the outcome spec of a lookup. */
  predicate Answers(r: Outcome<int>, spec: Outcome<Located>, st': Vol)
  {
    r.Done? == spec.Done? && r.Halted? == spec.Halted? &&
    (r.Done? ==> r.value == spec.value.sector && st' == spec.value.vol)
  }

  /** The lookup for virtual index v. A negative v fails every size_t tier
      test (SizeLess): the bitmap it read is written back unchanged and the
      answer is -1. */
  function INodeSector(st: Vol, v: int): (r: Outcome<Located>)
    requires VolOk(st)
    ensures r.Done? ==> VolOk(r.value.vol)
  {
    if v < 0 then Done(Located(Absent, st))
    else match Classify(v)
      case Direct(i) => Done(Located(st.hdr.dataSectors[i], st))
      case Single(k) => INodeSingle(st, k)
      case Double(j, k) => INodeDouble(st, j, k)
      case Triple(_, _, _) => Unmodelled
      case Beyond => Done(Located(Absent, st))
  }

  /** The single tier: a missing block is drawn from the bitmap and the
      fresh object stands for it; an existing one is read into the fresh
      object. Slot k's sector is found, drawing one when absent, the block
      is written back and the object deleted. */
  function INodeSingle(st: Vol, k: nat): (r: Outcome<Located>)
    requires VolOk(st) && k < MaxSingleSize
    ensures r.Done? ==> VolOk(r.value.vol)
  {
    var h := st.hdr;
    if h.singleIndex >= 0 && !InRange(h.singleIndex) then Halted
    else
      var g := Granted(st.bits);
      var si := if h.singleIndex < 0 then g.sector else h.singleIndex;
      var s := if h.singleIndex < 0 then FreshObj() else Fetched(FreshObj(), st.disk[h.singleIndex]);
      var bits := if h.singleIndex < 0 then g.bits else st.bits;
      var f := FoundSlot(s.slots, bits, k);
      var s' := s.(slots := f.block);
      if !InRange(si) || s'.vptr != Vtable then Halted
      else Done(Located(f.sector, Vol(h.(singleIndex := si), st.disk[si := Image(s')], f.bits)))
  }

  /** The double tier: the top block is drawn or read as in the single tier. */
  function INodeDouble(st: Vol, j: nat, k: nat): (r: Outcome<Located>)
    requires VolOk(st) && j < MaxSingleSize && k < MaxSingleSize
    ensures r.Done? ==> VolOk(r.value.vol)
  {
    var h := st.hdr;
    if h.doubleIndex >= 0 && !InRange(h.doubleIndex) then Halted
    else
      var g := Granted(st.bits);
      var di := if h.doubleIndex < 0 then g.sector else h.doubleIndex;
      var d := if h.doubleIndex < 0 then FreshObj() else Fetched(FreshObj(), st.disk[h.doubleIndex]);
      var bits := if h.doubleIndex < 0 then g.bits else st.bits;
      INodeDoubleSub(Vol(h.(doubleIndex := di), st.disk, bits), d, j, k)
  }

  /** The rest of the double tier, once dinode (d) holds the top block and
      the header names it. Slot j's sub-block is found, drawing one when
      absent, and a fresh sinode reads that sector even when it was just
      drawn. Slot k's sector is found, the top block then the sub-block are
      written back and both objects deleted. */
  function INodeDoubleSub(st: Vol, d: Obj, j: nat, k: nat): (r: Outcome<Located>)
    requires VolOk(st) && ObjOk(d) && j < MaxSingleSize && k < MaxSingleSize
    ensures r.Done? ==> VolOk(r.value.vol)
  {
    var di := st.hdr.doubleIndex;
    var fd := FoundSlot(d.slots, st.bits, j);
    var ss := fd.sector;
    var d' := d.(slots := fd.block);
    if !InRange(ss) then Halted
    else
      var s := Fetched(FreshObj(), st.disk[ss]);
      var fs := FoundSlot(s.slots, fd.bits, k);
      var s' := s.(slots := fs.block);
      if !InRange(di) || d'.vptr != Vtable || s'.vptr != Vtable then Halted
      else Done(Located(fs.sector, Vol(st.hdr, st.disk[di := Image(d')][ss := Image(s')], fs.bits)))
  }

  /** The direct tier is only read: the slot's sector, nothing drawn. */
  lemma INodeDirect(st: Vol, v: int)
    requires VolOk(st) && 0 <= v < NumDirect
    ensures INodeSector(st, v) == Done(Located(st.hdr.dataSectors[v], st))
    ensures SectorAt(st.hdr, st.disk, v) == Sector(st.hdr.dataSectors[v])
  {
  }

  /** In the single-indirect tier the lookup is INodeSingle on the slot the index falls in. */
  lemma INodeSectorSingle(st: Vol, v: int)
    requires VolOk(st) && SingleStart <= v < DoubleStart
    ensures INodeSector(st, v) == INodeSingle(st, v - SingleStart)
  {
    assert Classify(v) == Single(v - SingleStart);
  }

  /** In the double-indirect tier the lookup is INodeDouble on the
      sub-block j and slot k the index falls in. */
  lemma INodeSectorDouble(st: Vol, v: int, j: nat, k: nat)
    requires VolOk(st) && j < MaxSingleSize && k < MaxSingleSize && v == DoubleStart + j * MaxSingleSize + k
    ensures INodeSector(st, v) == INodeDouble(st, j, k)
  {
    assert Classify(v) == Double(j, k);
  }

  /** The triple-indirect tier of the lookup is not modelled. */
  lemma INodeSectorTriple(st: Vol, v: int)
    requires VolOk(st) && TripleStart <= v < TierEnd
    ensures INodeSector(st, v) == Unmodelled
  {
    ClassifyPosition(v);
  }

  /** For a negative index and past the last tier the lookup answers -1 and
      changes nothing. */
  lemma INodeBeyond(st: Vol, v: int)
    requires VolOk(st) && (v < 0 || v >= TierEnd)
    ensures INodeSector(st, v) == Done(Located(Absent, st))
    ensures SectorAt(st.hdr, st.disk, v) == Sector(Absent)
  {
    if v >= 0 {
      ClassifyPosition(v);
    }
  }

  /** What INodeSectorIsAppend states about one call: it completes exactly
      when Append's iteration from fresh objects does, leaves the state that
      iteration leaves, returns -1 only when the bitmap ran out, and the
      sector it returns is the one ByteToSector then names wherever the
      slots involved are stored ones and the lookup's tier pointers exist. */
  ghost predicate LocatedLikeAppend(st: Vol, v: int)
    requires VolOk(st)
  {
    var l := INodeSector(st, v);
    var a := AppendSector(Start(st), v);
    l.Done? == a.Done? &&
    (l.Done? ==>
      l.value.vol == a.value.vol &&
      (l.value.sector == Absent ==> CountClear(l.value.vol.bits) == 0) &&
      (Persisted(v) && (v >= DoubleStart ==> st.hdr.singleIndex >= 0) && l.value.sector != Absent ==>
         SectorAt(l.value.vol.hdr, l.value.vol.disk, v) == Sector(l.value.sector)))
  }

  /** In the single tier, and in the double tier where the sub-block already
      exists, the lookup is Append's iteration for the same index. */
  lemma INodeSectorIsAppend(st: Vol, v: int)
    requires VolOk(st) && Consistent(st) && SingleStart <= v < TripleStart
    requires v >= DoubleStart ==>
      InRange(st.hdr.doubleIndex) &&
      ReadSlot(st.disk[st.hdr.doubleIndex], (v - DoubleStart) / MaxSingleSize) != Absent
    ensures LocatedLikeAppend(st, v)
  {
    if v < DoubleStart {
      INodeSingleIsAppend(st, v);
    } else {
      INodeDoubleIsAppend(st, v);
    }
  }

  lemma INodeSingleIsAppend(st: Vol, v: int)
    requires VolOk(st) && Consistent(st) && SingleStart <= v < DoubleStart
    ensures LocatedLikeAppend(st, v)
  {
    var h := st.hdr;
    if h.singleIndex != Absent {
      assert InRange(h.singleIndex) && Genuine(st.disk[h.singleIndex]) by {
        assert RoleSector(h, st.disk, SingleRole) == h.singleIndex;
      }
      INodeSingleExisting(st, v);
    } else {
      INodeSingleFresh(st, v);
    }
  }

  lemma INodeSingleExisting(st: Vol, v: int)
    requires VolOk(st) && SingleStart <= v < DoubleStart
    requires InRange(st.hdr.singleIndex) && Genuine(st.disk[st.hdr.singleIndex])
    ensures LocatedLikeAppend(st, v)
  {
    AppendAgreesBelowTriple(v);
    ClassifyPosition(v);
    var h := st.hdr;
    var k := v - NumDirect;
    var si := h.singleIndex;
    var s := Fetched(FreshObj(), st.disk[si]);
    FetchedSlots(FreshObj(), st.disk[si]);
    ImageOfFetched(FreshObj(), st.disk[si]);
    assert h.(singleIndex := si) == h;
    GrantCost(st.bits);
    if s.slots[k] != Absent {
      assert s.(slots := s.slots) == s;
      assert st.disk[si := st.disk[si]] == st.disk;
    } else {
      var g := Granted(st.bits);
      ImageWithSlot(s, k, g.sector);
      WithSlotReads(st.disk[si], k, g.sector);
    }
  }

  lemma INodeSingleFresh(st: Vol, v: int)
    requires VolOk(st) && SingleStart <= v < DoubleStart && st.hdr.singleIndex == Absent
    ensures LocatedLikeAppend(st, v)
  {
    AppendAgreesBelowTriple(v);
    var k := v - NumDirect;
    var g := Granted(st.bits);
    GrantCost(st.bits);
    GrantCost(g.bits);
    var g2 := Granted(g.bits);
    BlankIndexReads();
    ImageWithSlot(FreshObj(), k, g2.sector);
    WithSlotReads(BlankIndex(), k, g2.sector);
  }

  lemma INodeDoubleIsAppend(st: Vol, v: int)
    requires VolOk(st) && Consistent(st) && DoubleStart <= v < TripleStart
    requires InRange(st.hdr.doubleIndex)
    requires ReadSlot(st.disk[st.hdr.doubleIndex], (v - DoubleStart) / MaxSingleSize) != Absent
    ensures LocatedLikeAppend(st, v)
  {
    AppendAgreesBelowTriple(v);
    ClassifyPosition(v);
    var h := st.hdr;
    var j, k := (v - DoubleStart) / MaxSingleSize, (v - DoubleStart) % MaxSingleSize;
    var di := h.doubleIndex;
    var ss := ReadSlot(st.disk[di], j);
    assert Genuine(st.disk[di]) by {
      assert RoleSector(h, st.disk, DoubleRole) == di;
    }
    assert InRange(ss) && Genuine(st.disk[ss]) && ss != di by {
      assert RoleSector(h, st.disk, DoubleSub(j)) == ss;
      assert RoleSector(h, st.disk, DoubleRole) != RoleSector(h, st.disk, DoubleSub(j));
    }
    var d := Fetched(FreshObj(), st.disk[di]);
    FetchedSlots(FreshObj(), st.disk[di]);
    ImageOfFetched(FreshObj(), st.disk[di]);
    assert d.(slots := d.slots) == d;
    var s := Fetched(FreshObj(), st.disk[ss]);
    FetchedSlots(FreshObj(), st.disk[ss]);
    ImageOfFetched(FreshObj(), st.disk[ss]);
    assert h.(doubleIndex := di) == h;
    if s.slots[k] != Absent {
      INodeDoublePopulated(st, v, j, k);
    } else {
      INodeDoubleDraws(st, v, j, k);
    }
  }

  /** The existing sub-block's slot is populated: nothing changes. */
  lemma INodeDoublePopulated(st: Vol, v: int, j: nat, k: nat)
    requires VolOk(st) && DoubleStart <= v < TripleStart
    requires j == (v - DoubleStart) / MaxSingleSize && k == (v - DoubleStart) % MaxSingleSize
    requires var di := st.hdr.doubleIndex; InRange(di) && Genuine(st.disk[di])
    requires var di := st.hdr.doubleIndex; var ss := ReadSlot(st.disk[di], j);
      InRange(ss) && Genuine(st.disk[ss]) && ss != di
    requires Fetched(FreshObj(), st.disk[ReadSlot(st.disk[st.hdr.doubleIndex], j)]).slots[k] != Absent
    ensures var di := st.hdr.doubleIndex; var ss := ReadSlot(st.disk[di], j);
      INodeSector(st, v) == Done(Located(ReadSlot(st.disk[ss], k), st)) &&
      AppendSector(Start(st), v).Done? && AppendSector(Start(st), v).value.vol == st
    ensures LocatedLikeAppend(st, v)
  {
    AppendAgreesBelowTriple(v);
    ClassifyPosition(v);
    var h := st.hdr;
    var di := h.doubleIndex;
    var ss := ReadSlot(st.disk[di], j);
    var d := Fetched(FreshObj(), st.disk[di]);
    FetchedSlots(FreshObj(), st.disk[di]);
    ImageOfFetched(FreshObj(), st.disk[di]);
    var s := Fetched(FreshObj(), st.disk[ss]);
    FetchedSlots(FreshObj(), st.disk[ss]);
    ImageOfFetched(FreshObj(), st.disk[ss]);
    assert d.(slots := d.slots) == d && s.(slots := s.slots) == s;
    assert h.(doubleIndex := di) == h;
    assert st.disk[di := st.disk[di]][ss := st.disk[ss]] == st.disk;
    if Persisted(v) {
      assert Classify(v) == Double(j, k);
      assert ReadSlot(st.disk[ss], k) == s.slots[k];
    }
  }

  /** The existing sub-block's slot is absent: a sector is drawn into it. */
  lemma INodeDoubleDraws(st: Vol, v: int, j: nat, k: nat)
    requires VolOk(st) && DoubleStart <= v < TripleStart
    requires j == (v - DoubleStart) / MaxSingleSize && k == (v - DoubleStart) % MaxSingleSize
    requires var di := st.hdr.doubleIndex; InRange(di) && Genuine(st.disk[di])
    requires var di := st.hdr.doubleIndex; var ss := ReadSlot(st.disk[di], j);
      InRange(ss) && Genuine(st.disk[ss]) && ss != di
    requires Fetched(FreshObj(), st.disk[ReadSlot(st.disk[st.hdr.doubleIndex], j)]).slots[k] == Absent
    ensures LocatedLikeAppend(st, v)
  {
    var l := INodeDoubleDrawn(st, v, j, k);
    var di := st.hdr.doubleIndex;
    var ss := ReadSlot(st.disk[di], j);
    var g := Granted(st.bits);
    GrantCost(st.bits);
    if Persisted(v) && st.hdr.singleIndex >= 0 && g.sector != Absent {
      AppendAgreesBelowTriple(v);
      assert Classify(v) == Double(j, k);
      WithSlotReads(st.disk[ss], k, g.sector);
      assert l.vol.disk[di] == st.disk[di];
    }
  }

  /** The state both leave when the existing sub-block's slot is absent. */
  lemma INodeDoubleDrawn(st: Vol, v: int, j: nat, k: nat) returns (l: Located)
    requires VolOk(st) && DoubleStart <= v < TripleStart
    requires j == (v - DoubleStart) / MaxSingleSize && k == (v - DoubleStart) % MaxSingleSize
    requires var di := st.hdr.doubleIndex; InRange(di) && Genuine(st.disk[di])
    requires var di := st.hdr.doubleIndex; var ss := ReadSlot(st.disk[di], j);
      InRange(ss) && Genuine(st.disk[ss]) && ss != di
    requires Fetched(FreshObj(), st.disk[ReadSlot(st.disk[st.hdr.doubleIndex], j)]).slots[k] == Absent
    ensures var g := Granted(st.bits); var ss := ReadSlot(st.disk[st.hdr.doubleIndex], j);
      l == Located(g.sector, Vol(st.hdr, st.disk[ss := WithSlot(st.disk[ss], k, g.sector)], g.bits))
    ensures INodeSector(st, v) == Done(l)
    ensures AppendSector(Start(st), v).Done? && AppendSector(Start(st), v).value.vol == l.vol
  {
    AppendAgreesBelowTriple(v);
    ClassifyPosition(v);
    var h := st.hdr;
    var di := h.doubleIndex;
    var ss := ReadSlot(st.disk[di], j);
    var d := Fetched(FreshObj(), st.disk[di]);
    FetchedSlots(FreshObj(), st.disk[di]);
    ImageOfFetched(FreshObj(), st.disk[di]);
    var s := Fetched(FreshObj(), st.disk[ss]);
    FetchedSlots(FreshObj(), st.disk[ss]);
    ImageOfFetched(FreshObj(), st.disk[ss]);
    assert d.(slots := d.slots) == d;
    assert h.(doubleIndex := di) == h;
    var g := Granted(st.bits);
    var s' := s.(slots := s.slots[k := g.sector]);
    ImageWithSlot(s, k, g.sector);
    var disk' := st.disk[ss := WithSlot(st.disk[ss], k, g.sector)];
    assert st.disk[di := st.disk[di]][ss := Image(s')] == disk';
    assert st.disk[ss := Image(s')][di := Image(d)] == disk';
    l := Located(g.sector, Vol(h, disk', g.bits));
    assert AppendSector(Start(st), v) == Done(Run(l.vol, s', d));
  }

  /** Asking again for a single-tier index whose slot is stored returns the
      same sector and changes nothing. */
  lemma INodeSingleIdempotent(st: Vol, v: int)
    requires VolOk(st) && SingleStart <= v < DoubleStart && Persisted(v)
    requires INodeSector(st, v).Done?
    ensures var l := INodeSector(st, v).value; INodeSector(l.vol, v) == Done(l)
  {
    ClassifyPosition(v);
    var l := INodeSector(st, v).value;
    var k := v - NumDirect;
    var si := l.vol.hdr.singleIndex;
    GrantCost(st.bits);
    if st.hdr.singleIndex == Absent {
      GrantCost(Granted(st.bits).bits);
    }
    var b := l.vol.disk[si];
    var s := Fetched(FreshObj(), b);
    FetchedSlots(FreshObj(), b);
    ImageOfFetched(FreshObj(), b);
    INodeSingleWrote(st, v);
    assert s.vptr == Vtable && s.slots[k] == l.sector;
    if l.sector == Absent {
      GrantCost(l.vol.bits);
      assert s.slots[k := Absent] == s.slots;
    }
    assert s.(slots := s.slots) == s;
    assert l.vol.hdr.(singleIndex := si) == l.vol.hdr;
    assert l.vol.disk[si := b] == l.vol.disk;
  }

  /** After a completed single-tier lookup the block holds a genuine vptr
      and, in slot k, the sector returned. */
  lemma INodeSingleWrote(st: Vol, v: int)
    requires VolOk(st) && SingleStart <= v < DoubleStart && Persisted(v)
    requires INodeSector(st, v).Done?
    ensures var l := INodeSector(st, v).value; var si := l.vol.hdr.singleIndex;
      InRange(si) && si != Absent && Genuine(l.vol.disk[si]) &&
      ReadSlot(l.vol.disk[si], v - NumDirect) == l.sector &&
      (l.sector == Absent ==> CountClear(l.vol.bits) == 0)
  {
    ClassifyPosition(v);
    var k := v - NumDirect;
    var h := st.hdr;
    GrantCost(st.bits);
    var g := Granted(st.bits);
    var s := if h.singleIndex < 0 then FreshObj() else Fetched(FreshObj(), st.disk[h.singleIndex]);
    var bits := if h.singleIndex < 0 then g.bits else st.bits;
    GrantCost(bits);
    var f := FoundSlot(s.slots, bits, k);
    var s' := s.(slots := f.block);
    assert Image(s')[..PtrWords] == s'.vptr;
    assert Image(s')[PtrWords + k] == s'.slots[k];
  }

  /** A single-tier slot that no sector image carries is never remembered:
      every call draws the next free sector for it, and writes the block back
      unchanged, while ByteToSector faults on that index. */
  lemma INodeSingleLostSlotRedraws(st: Vol, v: int)
    requires VolOk(st) && SingleStart <= v < DoubleStart && !Persisted(v)
    requires InRange(st.hdr.singleIndex) && Genuine(st.disk[st.hdr.singleIndex])
    ensures var g := Granted(st.bits);
      INodeSector(st, v) == Done(Located(g.sector, Vol(st.hdr, st.disk, g.bits)))
    ensures SectorAt(st.hdr, st.disk, v) == Fault
  {
    ClassifyPosition(v);
    var h := st.hdr;
    var k := v - NumDirect;
    var si := h.singleIndex;
    var s := Fetched(FreshObj(), st.disk[si]);
    FetchedSlots(FreshObj(), st.disk[si]);
    ImageOfFetched(FreshObj(), st.disk[si]);
    var g := Granted(st.bits);
    ImageWithSlot(s, k, g.sector);
    assert h.(singleIndex := si) == h;
    assert st.disk[si := st.disk[si]] == st.disk;
  }

  /** Two calls for such a slot hand out two different sectors and keep both marked. */
  lemma INodeSingleLostSlotLeaks(st: Vol, v: int)
    requires VolOk(st) && SingleStart <= v < DoubleStart && !Persisted(v)
    requires InRange(st.hdr.singleIndex) && Genuine(st.disk[st.hdr.singleIndex])
    requires CountClear(st.bits) >= 2
    ensures INodeSector(st, v).Done? && INodeSector(INodeSector(st, v).value.vol, v).Done?
    ensures var l := INodeSector(st, v).value; var l2 := INodeSector(l.vol, v).value;
      InRange(l.sector) && InRange(l2.sector) && l.sector != l2.sector &&
      l2.vol.bits[l.sector] && l2.vol.bits[l2.sector] && l2.vol.disk == st.disk
  {
    INodeSingleLostSlotRedraws(st, v);
    var l := INodeSector(st, v).value;
    INodeSingleLostSlotRedraws(l.vol, v);
    GrantCost(st.bits);
    GrantCost(l.vol.bits);
  }

  /** The double tier's defect: when sub-block j is missing, the sector
      drawn for it is read from the disk instead of starting out empty. The
      call then completes only if that sector holds a genuine vptr, and a
      stale word in its slot k is returned as the data sector with no data
      sector drawn. */
  lemma INodeDoubleStale(st: Vol, v: int)
    requires VolOk(st) && DoubleStart <= v < TripleStart
    requires InRange(st.hdr.doubleIndex) && Genuine(st.disk[st.hdr.doubleIndex])
    requires ReadSlot(st.disk[st.hdr.doubleIndex], (v - DoubleStart) / MaxSingleSize) == Absent
    requires var ss := FirstClear(st.bits);
      InRange(ss) && ReadSlot(st.disk[ss], (v - DoubleStart) % MaxSingleSize) != Absent
    ensures INodeSector(st, v).Done? == Genuine(st.disk[FirstClear(st.bits)])
    ensures var ss := FirstClear(st.bits);
      INodeSector(st, v).Done? ==>
        INodeSector(st, v).value.sector == ReadSlot(st.disk[ss], (v - DoubleStart) % MaxSingleSize) &&
        INodeSector(st, v).value.vol.bits == st.bits[ss := true]
  {
    ClassifyPosition(v);
    var di := st.hdr.doubleIndex;
    var j, k := (v - DoubleStart) / MaxSingleSize, (v - DoubleStart) % MaxSingleSize;
    var ss := FirstClear(st.bits);
    FetchedSlots(FreshObj(), st.disk[di]);
    FetchedSlots(FreshObj(), st.disk[ss]);
    GrantCost(st.bits);
  }

  /** On a disk whose free sectors were never written, the sub-block's
      object reads a zero vptr, and deleting it at the end is undefined:
      the lookup halts. */
  lemma INodeDoubleOnBlankDisk(st: Vol, v: int)
    requires VolOk(st) && DoubleStart <= v < TripleStart
    requires InRange(st.hdr.doubleIndex)
    requires ReadSlot(st.disk[st.hdr.doubleIndex], (v - DoubleStart) / MaxSingleSize) == Absent
    requires var ss := FirstClear(st.bits); InRange(ss) && st.disk[ss] == ZeroBlock()
    ensures INodeSector(st, v) == Halted
  {
    ClassifyPosition(v);
    var di := st.hdr.doubleIndex;
    var ss := FirstClear(st.bits);
    FetchedSlots(FreshObj(), st.disk[di]);
    GrantCost(st.bits);
    BlankSectorBreaksVptr(FreshObj());
  }
}
