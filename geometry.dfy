/** Disk geometry and the block-index constants of code/filesys/filehdr.h. */
module Geometry {

  // Values of the Nachos headers disk.h, utility.h and bitmap.h, which are
  // not part of this model: 32 tracks of 32 sectors of 128 bytes, 4-byte ints.
  const SectorSize: nat := 128
  const IntSize: nat := 4
  const NumSectors: nat := 1024
  const BitsInByte: nat := 8

  // The block-index constants below are the values of the expressions
  // filehdr.h defines them by; SourceFormulas states those expressions.

  /** Number of sector pointers held by one index block (an `inode`). */
  const SlotsPerBlock: nat := 32

  /** Direct slots: the sector minus 4 scalar fields and 3 tier pointers. */
  const NumDirect: nat := 25

  const MaxSingleSize: nat := 32
  const MaxDoubleSize: nat := 1024
  const MaxTripleSize: nat := 32768
  const MaxFileSize: nat := 4332672

  /** First virtual sector index of each indirection tier, and the end of the last. */
  const SingleStart: nat := 25
  const DoubleStart: nat := 57
  const TripleStart: nat := 1081
  const TierEnd: nat := 33849

  const MaxDirectorySize: nat := 200

  // File types (filehdr.h).
  const TypeNormal: int := 0
  const TypeFifo: int := 1
  const TypeDiskBitmap: int := 2
  const TypeDir: int := 3
  const TypeInode: int := 4

  /** Bytes of the free-sector bitmap file: one bit per sector. */
  const FreeMapFileSize: nat := NumSectors / BitsInByte

  /** The sentinel stored in a slot or tier pointer that holds no sector. */
  const Absent: int := -1

  /** Well-known sectors of the bitmap header and the root directory header (filesys.cc). */
  const FreeMapSector: int := 0
  const DirectorySector: int := 1

  /** A sector number the disk accepts (Disk::ReadRequest asserts this range). */
  predicate InRange(s: int) { 0 <= s < NumSectors }

  /** divRoundUp of utility.h for a non-negative count: the number of
      `size`-byte units needed to hold `n` bytes. */
  function DivRoundUp(n: nat, size: nat): (r: nat)
    requires size > 0
    ensures r * size >= n
    ensures r > 0 ==> (r - 1) * size < n
  {
    if n == 0 then 0 else 1 + DivRoundUp(if n <= size then 0 else n - size, size)
  }

  /** C's `/` on ints, which truncates toward zero: the floor of the exact
      quotient for a non-negative dividend, its ceiling for a negative one. */
  function CDiv(n: int, d: nat): (q: int)
    requires d > 0
    ensures n >= 0 ==> q >= 0 && q * d <= n < (q + 1) * d
    ensures n < 0 ==> q <= 0 && (q - 1) * d < n <= q * d
  {
    if n >= 0 then n / d
    else
      var m := -n;
      assert (m / d) * d <= m < (m / d + 1) * d;
      -(m / d)
  }

  /** C's `%` on ints: its sign is the dividend's. */
  function CMod(n: int, d: nat): (m: int)
    requires d > 0
    ensures n >= 0 ==> 0 <= m < d
    ensures n < 0 ==> -(d as int) < m <= 0
  {
    n - CDiv(n, d) * d
  }

  /** divRoundUp of utility.h on a C int, n / size plus one when n % size
      is positive, in C's arithmetic. Truncation rounds a negative quotient
      up, so every count, negative ones included, gives the ceiling of the
      exact quotient, and for a non-negative count that is DivRoundUp. */
  function CDivRoundUp(n: int, size: nat): (r: int)
    requires size > 0
    ensures r * size >= n && (r - 1) * size < n
    ensures n >= 0 ==> r == DivRoundUp(n, size)
  {
    var r := CDiv(n, size) + (if CMod(n, size) > 0 then 1 else 0);
    assert n >= 0 ==> r == DivRoundUp(n, size) by {
      if n >= 0 {
        CeilingUnique(n, size, DivRoundUp(n, size), r);
      }
    }
    r
  }

  /** The bitmap file, and any file of one sector's worth of bytes, fits in one sector. */
  lemma OneSectorFiles()
    ensures DivRoundUp(FreeMapFileSize, SectorSize) == 1 && CDivRoundUp(FreeMapFileSize, SectorSize) == 1
    ensures CDivRoundUp(SectorSize, SectorSize) == 1
  {
    assert DivRoundUp(SectorSize, SectorSize) == 1;
  }

  /** The ceiling of n / size is the only r with (r - 1) * size < n <= r * size. */
  lemma CeilingUnique(n: int, size: nat, r: int, r': int)
    requires size > 0
    requires r * size >= n && (r - 1) * size < n
    requires r' * size >= n && (r' - 1) * size < n
    ensures r == r'
  {
  }

  // The pointer width of the host, and with it the width of size_t.

  /** Disk words a pointer occupies: 1 with 4-byte pointers, 2 with 8-byte ones. */
  type PtrWordCount = p: nat | 1 <= p <= 2 witness 1

  const PtrWords: PtrWordCount

  /** Values of size_t, which is as wide as a pointer. */
  const SizeRange: nat := if PtrWords == 1 then 0x1_0000_0000 else 0x1_0000_0000_0000_0000

  /** Values of a C int. */
  predicate IsCInt(x: int) { -0x8000_0000 <= x < 0x8000_0000 }

  /** The C test `x < bound` for an int x and a size_t bound (the tier sizes
      of filehdr.h are sizeof expressions): x converts to size_t, where a
      negative int becomes a value above every bound used here, so the test
      holds exactly for a non-negative x below the bound. */
  predicate SizeLess(x: int, bound: nat) { 0 <= x < bound }

  /** SizeLess is the comparison after the conversion of x modulo SizeRange,
      for every int x and every bound below 2^31. */
  lemma SizeLessIsUnsigned(x: int, bound: nat)
    requires IsCInt(x) && bound < 0x8000_0000
    ensures SizeLess(x, bound) <==> x % SizeRange < bound
  {
    if x < 0 {
      assert x % SizeRange == x + SizeRange;
    }
  }

  /** The constants are the values of filehdr.h's defining expressions, and
      the header's scalar fields, direct slots and tier pointers fill one
      sector exactly. */
  lemma SourceFormulas()
    ensures SlotsPerBlock == SectorSize / IntSize
    ensures NumDirect == (SectorSize - 4 * IntSize - 3 * IntSize) / IntSize
    ensures (4 + NumDirect + 3) * IntSize == SectorSize
    ensures MaxSingleSize == SectorSize / IntSize
    ensures MaxDoubleSize == MaxSingleSize * SectorSize / IntSize
    ensures MaxTripleSize == MaxDoubleSize * SectorSize / IntSize
    ensures MaxFileSize == (NumDirect + MaxSingleSize + MaxDoubleSize + MaxTripleSize) * SectorSize
    ensures SingleStart == NumDirect && DoubleStart == SingleStart + MaxSingleSize
    ensures TripleStart == DoubleStart + MaxDoubleSize && TierEnd == TripleStart + MaxTripleSize
  {
  }
}
