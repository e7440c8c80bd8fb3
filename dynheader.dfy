/** The 1024-byte dynamic disk header (`struct vhd_dyn`, vhdtool.c:100-114), the block-size
    validation of `vhd_dyn_make` (vhdtool.c:356-376) and the block allocation table entries. */
module DynHeader {
  import opened Ints
  import opened Bytes

  type Bytes984 = s: seq<Byte> | |s| == 984 witness Zeros(984)

  /** "cxsparse" */
  const DYN_COOKIE: Bytes8 := [0x63, 0x78, 0x73, 0x70, 0x61, 0x72, 0x73, 0x65]
  /** No further header: all ones. */
  const DOFF_DYN: U64 := MAX_U64
  const HEADER_VERSION: U32 := 0x0001_0000
  const DYN_SIZE: nat := 1024
  /** `DYN_BLOCK_SZ`: 2 MiB. */
  const DEFAULT_BLOCK_SIZE: nat := 0x20_0000
  /** `BAT_ENTRY_EMPTY`: an unallocated block. */
  const BAT_ENTRY_EMPTY: U32 := 0xFFFF_FFFF

  /** The header's fields as host values. `parent` holds the parent identifier, parent time
      stamp, parent name, the eight parent locators and the reserved tail, none of which this tool
      ever sets. */
  datatype DynHeader = DynHeader(
    cookie: Bytes8,
    dataOffset: U64,
    tableOffset: U64,
    headerVersion: U32,
    maxTabEntries: U32,
    blockSize: U32,
    checksum: U32,
    parent: Bytes984)

  /** The header of a freshly cleared `struct vhd`. */
  const ZERO_DYN: DynHeader :=
    DynHeader([0, 0, 0, 0, 0, 0, 0, 0], 0, 0, 0, 0, 0, 0, Zeros(984))

  /** Bytes 0..35: cookie up to block size. */
  function DynHead(d: DynHeader): (r: seq<Byte>)
    ensures |r| == 36
  {
    d.cookie + Be64(d.dataOffset) + Be64(d.tableOffset) + Be32(d.headerVersion)
    + Be32(d.maxTabEntries) + Be32(d.blockSize)
  }

  /** The header as it lies in memory and on disk. */
  function EncodeDyn(d: DynHeader): (r: seq<Byte>)
    ensures |r| == DYN_SIZE
  {
    DynHead(d) + Be32(d.checksum) + d.parent
  }

  /** Every field of `struct vhd_dyn` (vhdtool.c:100-114) at its packed offset, big-endian; the
      parent block takes the remaining 984 bytes. */
  lemma EncodeDynSlices(d: DynHeader)
    ensures var b := EncodeDyn(d);
      && b[0..8] == d.cookie
      && b[8..16] == Be64(d.dataOffset)
      && b[16..24] == Be64(d.tableOffset)
      && b[24..28] == Be32(d.headerVersion)
      && b[28..32] == Be32(d.maxTabEntries)
      && b[32..36] == Be32(d.blockSize)
      && b[36..40] == Be32(d.checksum)
      && b[40..] == d.parent
  {
    assert forall i, j | 0 <= i <= j <= 36 :: EncodeDyn(d)[i..j] == DynHead(d)[i..j];
  }

  /** Lines 372-374: zero the checksum, sum the record, store the complement big-endian. */
  function SealDyn(d: DynHeader): (r: DynHeader)
    ensures r == d.(checksum := r.checksum)
  {
    d.(checksum := Checksum(EncodeDyn(d.(checksum := 0))))
  }

  /** A sealed header passes the checksum test over its 1024 bytes. */
  lemma SealedDynChecks(d: DynHeader)
    ensures ChecksumHolds(EncodeDyn(SealDyn(d)), 36)
  {
    assert EncodeDyn(d.(checksum := 0)) == DynHead(d) + Zeros(4) + d.parent;
    SealedRecordChecks(DynHead(d), d.parent);
  }

  /** The outcome of the checks at lines 363-370 for a disk of `size` bytes. */
  datatype Verdict =
    | Accepted(entries: nat)
    | NotSectorMultiple   // line 363
    | ZeroBlock           // a zero block size passes line 363 and then divides by zero at line 366
    | BlockTooLarge       // line 367: no table entry at all
    | NotBlockMultiple    // line 368

  /** `(uint64_t)vhd->size / block_size`, then the exactness test `(off64_t)(n * block_size) != size`. */
  function CheckBlockSize(size: Int64, blockSize: U32): (r: Verdict)
    ensures r == NotSectorMultiple <==> blockSize % 512 != 0
    ensures r == ZeroBlock <==> blockSize == 0
    ensures r == BlockTooLarge <==> blockSize != 0 && blockSize % 512 == 0 && Unsigned64(size) < blockSize
    ensures r == NotBlockMultiple <==>
      blockSize != 0 && blockSize % 512 == 0
      && Unsigned64(size) >= blockSize && Unsigned64(size) % blockSize != 0
    ensures r.Accepted? <==>
      blockSize != 0 && blockSize % 512 == 0
      && Unsigned64(size) >= blockSize && Unsigned64(size) % blockSize == 0
    ensures r.Accepted? ==> r.entries * blockSize == Unsigned64(size) && r.entries > 0
    ensures r.Accepted? && size >= 0 ==> r.entries * blockSize == size
  {
    if blockSize % 512 != 0 then NotSectorMultiple
    else if blockSize == 0 then ZeroBlock
    else
      var entries := Unsigned64(size) / blockSize;
      CheckBlockSizeSpec(size, blockSize);
      if entries == 0 then BlockTooLarge
      else if Signed64(entries * blockSize) != size then NotBlockMultiple
      else
        Accepted(entries)
  }

  lemma CheckBlockSizeSpec(size: Int64, blockSize: U32)
    requires blockSize != 0 && blockSize % 512 == 0
    ensures var u := Unsigned64(size); var n := u / blockSize;
      && (n == 0 <==> u < blockSize)
      && (n > 0 ==> (Signed64(n * blockSize) == size <==> u % blockSize == 0))
      && (u % blockSize == 0 ==> n * blockSize == u)
  {
    var u := Unsigned64(size);
    var n := u / blockSize;
    DivNonneg(u, blockSize);
    assert u == n * blockSize + u % blockSize;
    if u < blockSize {
      DivModUnique(u, blockSize, 0, u);
    }
    if n > 0 {
      Signed64Injective(n * blockSize, u);
    }
  }

  /** The header `vhd_dyn_make` leaves when the checks pass: cookie, the no-next-header offset,
      the table right behind the header, the version, the entry count in 32 bits, the block size,
      and the checksum over the rest. */
  function BuildDynHeader(prev: DynHeader, offset: Int64, blockSize: U32, entries: nat): (r: DynHeader)
    ensures r.cookie == DYN_COOKIE && r.dataOffset == DOFF_DYN && r.headerVersion == HEADER_VERSION
    ensures offset >= 0 && offset + DYN_SIZE < TWO_64 ==> r.tableOffset == offset + DYN_SIZE
    ensures r.blockSize == blockSize && r.maxTabEntries == entries % TWO_32
    ensures r.parent == prev.parent
  {
    StampTableOffset(prev, offset);
    SealDyn(Stamp(prev, offset).(blockSize := blockSize, maxTabEntries := entries % TWO_32))
  }

  /** Lines 358-361, done before any check: cookie, data offset, table offset, version. */
  function Stamp(prev: DynHeader, offset: Int64): DynHeader
  {
    prev.(cookie := DYN_COOKIE, dataOffset := DOFF_DYN, tableOffset := (offset + DYN_SIZE) % TWO_64,
          headerVersion := HEADER_VERSION)
  }

  /** The header `vhd_dyn_make` builds carries a valid checksum. */
  lemma BuiltDynHeaderChecks(prev: DynHeader, offset: Int64, blockSize: U32, entries: nat)
    ensures ChecksumHolds(EncodeDyn(BuildDynHeader(prev, offset, blockSize, entries)), 36)
  {
    SealedDynChecks(Stamp(prev, offset).(blockSize := blockSize, maxTabEntries := entries % TWO_32));
  }

  /** The table offset `Stamp` stores is the cursor plus the header's size, unless that sum leaves
      64 bits. */
  lemma StampTableOffset(prev: DynHeader, offset: Int64)
    ensures offset >= 0 && offset + DYN_SIZE < TWO_64 ==> Stamp(prev, offset).tableOffset == offset + DYN_SIZE
  {
    if offset >= 0 && offset + DYN_SIZE < TWO_64 {
      DivModUnique(offset + DYN_SIZE, TWO_64, 0, offset + DYN_SIZE);
    }
  }

  /** `n` unallocated table entries, each 0xFFFFFFFF in big-endian order. */
  function EmptyBat(n: nat): (r: seq<Byte>)
    ensures |r| == 4 * n
    ensures forall i :: 0 <= i < |r| ==> r[i] == 0xFF
  {
    seq(4 * n, _ => 0xFF)
  }

  /** One more empty entry extends the table by the big-endian bytes of BAT_ENTRY_EMPTY. */
  lemma EmptyBatStep(n: nat)
    ensures EmptyBat(n) + Be32(BAT_ENTRY_EMPTY) == EmptyBat(n + 1)
  {
    Pow256Values();
    assert Be32(BAT_ENTRY_EMPTY) == [0xFF, 0xFF, 0xFF, 0xFF];
  }
}
