/** `struct vhd` (vhdtool.c:123-136) and the operations that update it in place: the cursor I/O
    of `vhd_read`/`vhd_write`, the raw accessor, `vhd_verify` with the open-time fallback,
    `vhd_chs`, `vhd_footer_make`, `vhd_dyn_make`, `vhd_create` and `vhd_copy`. */
module Image {
  import opened Ints
  import opened Bytes
  import opened DiskGeometry
  import opened VhdFooter
  import opened DynHeader
  import opened Disk

  /** A file length or a cursor that `lseek64` accepts. */
  type FileSize = x: int | 0 <= x < 0x8000_0000_0000_0000

  /** The `read`/`write` function pointers: never assigned (NULL), or `op_raw_read`/`op_raw_write`. */
  datatype Accessor = NoAccessor | RawAccessor

  /** The result of an operation. `Fault` is a crash of the process (a division by zero or a call
      through a NULL pointer), after which nothing else runs and nothing is cleaned up. */
  datatype Status = Ok | Failed | Fault

  /** The bounds test of `op_raw_read`/`op_raw_write` (vhdtool.c:209, 217), with the sum taken as
      `off64_t`. */
  predicate RawInBounds(off: Int64, n: nat, size: Int64)
  {
    !(off > size || Signed64(off + n) > size)
  }

  /** While the sum does not reach 2^63 the test is exactly `off + n <= size`. */
  lemma RawInBoundsExact(off: Int64, n: nat, size: Int64)
    requires off + n < TWO_63
    ensures RawInBounds(off, n, size) <==> off + n <= size
  {
    DivModUnique(off + n, TWO_64, if off + n >= 0 then 0 else -1,
                 if off + n >= 0 then off + n else off + n + TWO_64);
  }

  /** How `vhd_open` classifies an existing file (vhdtool.c:247-261). */
  datatype Source = Unopenable | VerifiedFixed(size: Int64) | RawImage(size: Int64)

  /** Read the last 512 bytes as a footer; a fixed-disk footer makes the data region the file
      without its footer, anything else is a raw image of the whole file if OPEN_RAW_OK is set. */
  function Detect(file: seq<Byte>, rawOk: bool): (r: Source)
    requires |file| < TWO_63
    ensures r.VerifiedFixed? ==> r.size == |file| - FOOTER_SIZE >= 0
    ensures r.RawImage? ==> rawOk && r.size == |file|
    ensures !r.Unopenable? ==> 0 <= r.size <= |file|
  {
    if |file| < FOOTER_SIZE then Unopenable
    else if IsFixedFooter(file[|file| - FOOTER_SIZE..]) then VerifiedFixed(|file| - FOOTER_SIZE)
    else if rawOk then RawImage(|file|)
    else Unopenable
  }

  /** The data offset `vhd_create` hands to `vhd_footer_make` (vhdtool.c:381). */
  function DataOffsetFor(diskType: U32): (r: U64)
    ensures diskType == TYPE_FIXED ==> r == DOFF_FIXED
    ensures diskType != TYPE_FIXED ==> r == FOOTER_SIZE
  {
    if diskType == TYPE_FIXED then DOFF_FIXED else FOOTER_SIZE
  }

  /** Where the trailing footer of a dynamic image goes: the end of the table, rounded up to a
      sector (vhdtool.c:414). */
  function TrailerOffset(entries: nat): (r: nat)
    ensures r % 512 == 0 && FOOTER_SIZE + DYN_SIZE + 4 * entries <= r < FOOTER_SIZE + DYN_SIZE + 4 * entries + 512
  {
    RoundUpIsLeastMultiple(FOOTER_SIZE + DYN_SIZE + 4 * entries, 512);
    RoundUp(FOOTER_SIZE + DYN_SIZE + 4 * entries, 512)
  }

  /** The file a completed dynamic creation leaves: footer, header, the empty table, zero padding
      to a sector boundary, and the footer again. */
  function DynamicLayout(footer: seq<Byte>, header: seq<Byte>, entries: nat): seq<Byte>
  {
    footer + header + EmptyBat(entries) + Zeros(TrailerOffset(entries) - (FOOTER_SIZE + DYN_SIZE + 4 * entries))
    + footer
  }

  /** The block size `vhd_create` works with: DYN_BLOCK_SZ when none was given (vhdtool.c:380). */
  function EffectiveBlockSize(blockSize: Int64): (r: Int64)
    ensures r != 0
    ensures blockSize == 0 ==> r == DEFAULT_BLOCK_SIZE
    ensures blockSize != 0 ==> r == blockSize
  {
    if blockSize == 0 then DEFAULT_BLOCK_SIZE else blockSize
  }

  /** `bat_entries` (vhdtool.c:411): `(uint64_t)size / (uint64_t)block_size`. */
  function TableEntries(size: Int64, bs: Int64): nat
    requires bs != 0
  {
    var d := Unsigned64(bs);
    var u := Unsigned64(size);
    DivNonneg(u, d);
    u / d
  }

  /** What the dynamic branch of `vhd_create` leaves, for a disk of `size` bytes, block size `bs`
      and footer bytes `trailer`. It succeeds exactly when the block size passes `vhd_dyn_make`
      and the medium takes the whole layout; it crashes exactly when a zero block size reaches the
      division; whatever happens, the file is a prefix of the full layout, and on success it is
      all of it with the header built from the block size truncated to 32 bits. */
  ghost predicate DynamicOutcome(st: Status, size: Int64, bs: Int64, capacity: nat, prevDyn: DynHeader,
                                 dyn: DynHeader, trailer: seq<Byte>, file: seq<Byte>, offset: Int64)
    requires bs != 0
  {
    var v := CheckBlockSize(size, bs % TWO_32);
    var entries := TableEntries(size, bs);
    && (st == Ok <==> v.Accepted? && TrailerOffset(entries) + FOOTER_SIZE <= capacity)
    && (st == Fault <==> v == ZeroBlock && FOOTER_SIZE <= capacity)
    && (st == Ok ==>
          && dyn == BuildDynHeader(prevDyn, FOOTER_SIZE, bs % TWO_32, v.entries)
          && file == DynamicLayout(trailer, EncodeDyn(dyn), entries)
          && offset == TrailerOffset(entries) + FOOTER_SIZE)
    && (st != Ok ==> file <= DynamicLayout(trailer, EncodeDyn(dyn), entries))
  }

  /** What the fixed branch of `vhd_create` leaves, for a disk of `size` bytes and footer bytes
      `trailer`: it succeeds exactly when the sparse hint is taken and the medium holds the logical
      region and the footer; then the file is a hole of `size` zero bytes followed by the footer,
      and otherwise nothing was written. */
  ghost predicate FixedOutcome(st: Status, size: Int64, capacity: nat, sparseOk: bool, trailer: seq<Byte>,
                               file: seq<Byte>, offset: Int64)
  {
    && st == (if sparseOk && 0 <= size && size + FOOTER_SIZE <= capacity then Ok else Failed)
    && (st == Ok ==> file == Zeros(size) + trailer && offset == size + FOOTER_SIZE)
    && (st != Ok ==> file == [])
  }

  /** Whether the copy loop of `vhd_copy` can move the chunk at `pos`: the source's raw read and the
      destination's raw write both pass their bounds test and both transfers are complete. */
  predicate ChunkOk(pos: Int64, srcSize: Int64, srcLen: nat, dstSize: Int64, dstCapacity: nat)
  {
    RawInBounds(pos, 512, srcSize) && 0 <= pos && pos + 512 <= srcLen
    && RawInBounds(pos, 512, dstSize) && pos + 512 <= dstCapacity
  }

  /** Every chunk below `upTo` can be moved. */
  predicate ChunksOkBelow(upTo: int, srcSize: Int64, srcLen: nat, dstSize: Int64, dstCapacity: nat)
  {
    forall pos: Int64 :: 0 <= pos < upTo && pos % 512 == 0 ==> ChunkOk(pos, srcSize, srcLen, dstSize, dstCapacity)
  }

  lemma ChunksOkExtend(pos: Int64, srcSize: Int64, srcLen: nat, dstSize: Int64, dstCapacity: nat)
    requires pos % 512 == 0
    requires ChunksOkBelow(pos, srcSize, srcLen, dstSize, dstCapacity)
    requires ChunkOk(pos, srcSize, srcLen, dstSize, dstCapacity)
    ensures ChunksOkBelow(pos + 512, srcSize, srcLen, dstSize, dstCapacity)
  {
    forall p: Int64 | 0 <= p < pos + 512 && p % 512 == 0
      ensures ChunkOk(p, srcSize, srcLen, dstSize, dstCapacity)
    {
      if p > pos {
        MultiplesApart(pos, p, 512);
      }
    }
  }

  /** Once the loop has passed the end of the region, the chunks checked are all the chunks. */
  lemma ChunksOkDone(pos: Int64, srcSize: Int64, srcLen: nat, dstSize: Int64, dstCapacity: nat)
    requires pos % 512 == 0 && pos - 512 < srcSize <= pos
    ensures ChunksOkBelow(pos, srcSize, srcLen, dstSize, dstCapacity)
            == ChunksOkBelow(srcSize, srcSize, srcLen, dstSize, dstCapacity)
  {
    if ChunksOkBelow(srcSize, srcSize, srcLen, dstSize, dstCapacity) {
      forall p: Int64 | 0 <= p < pos && p % 512 == 0
        ensures ChunkOk(p, srcSize, srcLen, dstSize, dstCapacity)
      {
        MultiplesApart(p, pos, 512);
      }
    }
  }

  class Vhd {
    var footer: Footer
    var dyn: DynHeader
    /** The logical size in bytes. */
    var size: Int64
    /** The cursor `vhd_read`/`vhd_write` seek to. */
    var offset: Int64
    var fileSize: FileSize
    var diskType: U32
    /** COMPAT_SIZE */
    var compat: bool
    var accessor: Accessor
    /** The file's contents. */
    var file: seq<Byte>
    /** The largest file the medium accepts; a transfer beyond it comes up short. */
    const capacity: FileSize

    ghost predicate Valid()
      reads this
    {
      |file| <= capacity
    }

    /** `vhd_open` up to a successful `open`: the struct cleared, the flags set. */
    constructor Blank(contents: seq<Byte>, capacity: FileSize, compat: bool)
      requires |contents| <= capacity
      ensures Valid()
      ensures this.file == contents && this.capacity == capacity && this.compat == compat
      ensures footer == ZERO_FOOTER && dyn == ZERO_DYN && size == 0 && offset == 0 && fileSize == 0
      ensures diskType == 0 && accessor == NoAccessor
    {
      footer := ZERO_FOOTER;
      dyn := ZERO_DYN;
      size := 0;
      offset := 0;
      fileSize := 0;
      diskType := 0;
      this.compat := compat;
      accessor := NoAccessor;
      file := contents;
      this.capacity := capacity;
    }

    /** `vhd_read` (vhdtool.c:181-192): seek to the cursor, read exactly `n` bytes, advance.
        The `(unsigned)`/`(int)` casts there are exact because every caller moves at most 1024 bytes. */
    method Read(n: nat) returns (ok: bool, data: seq<Byte>)
      requires Valid() && n <= DYN_SIZE
      modifies this`offset
      ensures ok == (0 <= old(offset) && old(offset) + n <= |file|)
      ensures ok ==> data == file[old(offset)..old(offset) + n] && offset == old(offset) + n
      ensures !ok ==> offset == old(offset)
    {
      if offset < 0 || offset + n > |file| {
        return false, [];
      }
      data := file[offset..offset + n];
      offset := offset + n;
      ok := true;
    }

    /** `vhd_write` (vhdtool.c:194-205): seek to the cursor, write exactly `n` bytes, advance. */
    method Write(data: seq<Byte>) returns (ok: bool)
      requires Valid() && |data| <= DYN_SIZE
      modifies this`offset, this`file
      ensures Valid()
      ensures ok == (0 <= old(offset) && old(offset) + |data| <= capacity)
      ensures ok ==> file == WriteAt(old(file), old(offset), data) && offset == old(offset) + |data|
      ensures !ok ==> file == old(file) && offset == old(offset)
    {
      if offset < 0 || offset + |data| > capacity {
        return false;
      }
      file := WriteAt(file, offset, data);
      offset := offset + |data|;
      ok := true;
    }

    /** `op_raw_read` (vhdtool.c:207-213): bounds test against the logical size, then move the
        cursor to `off` and read. */
    method RawRead(off: Int64, n: nat) returns (ok: bool, data: seq<Byte>)
      requires Valid() && n <= DYN_SIZE
      modifies this`offset
      ensures !RawInBounds(off, n, size) ==> !ok && offset == old(offset)
      ensures RawInBounds(off, n, size) ==>
        && ok == (0 <= off && off + n <= |file|)
        && (ok ==> data == file[off..off + n] && offset == off + n)
        && (!ok ==> offset == off)
    {
      if off > size || Signed64(off + n) > size {
        return false, [];
      }
      offset := off;
      ok, data := Read(n);
    }

    /** `op_raw_write` (vhdtool.c:215-221): bounds test, then move the cursor to `off` and write. */
    method RawWrite(off: Int64, data: seq<Byte>) returns (ok: bool)
      requires Valid() && |data| <= DYN_SIZE
      modifies this`offset, this`file
      ensures Valid()
      ensures !RawInBounds(off, |data|, size) ==> !ok && offset == old(offset) && file == old(file)
      ensures RawInBounds(off, |data|, size) ==>
        && ok == (0 <= off && off + |data| <= capacity)
        && (ok ==> file == WriteAt(old(file), off, data) && offset == off + |data|)
        && (!ok ==> file == old(file) && offset == off)
    {
      if off > size || Signed64(off + |data|) > size {
        return false;
      }
      offset := off;
      ok := Write(data);
    }

    /** `vhd_verify` (vhdtool.c:223-231): only a "conectix" footer of a fixed disk is accepted; it
        gets the raw accessor and a logical size of the file less its footer. */
    method Verify() returns (ok: bool)
      modifies this`accessor, this`size
      ensures ok == (footer.cookie == COOKIE && footer.diskType == TYPE_FIXED)
      ensures ok ==> accessor == RawAccessor && size == fileSize - FOOTER_SIZE
      ensures !ok ==> accessor == old(accessor) && size == old(size)
    {
      if footer.cookie != COOKIE {
        return false;
      }
      if footer.diskType != TYPE_FIXED {
        return false;
      }
      accessor := RawAccessor;
      size := fileSize - FOOTER_SIZE;
      ok := true;
    }

    /** `vhd_open` of an existing file (vhdtool.c:247-261): read the last 512 bytes into the footer,
        verify it, and fall back to a raw image of the whole file when OPEN_RAW_OK allows it. */
    static method Open(contents: seq<Byte>, capacity: FileSize, rawOk: bool) returns (v: Vhd?)
      requires |contents| <= capacity
      ensures v == null <==> Detect(contents, rawOk).Unopenable?
      ensures v != null ==>
        && fresh(v) && v.Valid() && v.file == contents && v.capacity == capacity && !v.compat
        && v.accessor == RawAccessor && v.size == Detect(contents, rawOk).size
        && v.offset == |contents| && v.diskType == 0
    {
      v := new Vhd.Blank(contents, capacity, false);
      v.fileSize := |contents|;
      v.offset := |contents| - FOOTER_SIZE;
      var read, ok := v.LoadFooter();
      if !read {
        return null;
      }
      if !ok {
        if !rawOk {
          return null;
        }
        v.accessor := RawAccessor;
        v.size := v.fileSize;
      }
    }

    /** Lines 250-255: read the last sector into the footer and let `vhd_verify` judge it. */
    method LoadFooter() returns (read: bool, ok: bool)
      requires Valid() && offset == |file| - FOOTER_SIZE && fileSize == |file|
      modifies this`offset, this`footer, this`accessor, this`size
      ensures read == (|file| >= FOOTER_SIZE) && (read ==> offset == |file|)
      ensures ok ==> read
      ensures read ==> ok == IsFixedFooter(file[|file| - FOOTER_SIZE..])
      ensures ok ==> accessor == RawAccessor && size == fileSize - FOOTER_SIZE
      ensures !ok ==> accessor == old(accessor) && size == old(size)
    {
      var data;
      read, data := Read(FOOTER_SIZE);
      if !read {
        return false, false;
      }
      assert data == file[|file| - FOOTER_SIZE..];
      ok := AdoptFooter(data);
    }

    /** Lines 254-255: copy the bytes read into the footer structure and verify it. */
    method AdoptFooter(data: seq<Byte>) returns (ok: bool)
      requires |data| == FOOTER_SIZE
      modifies this`footer, this`accessor, this`size
      ensures footer == Decode(data)
      ensures ok == IsFixedFooter(data)
      ensures ok ==> accessor == RawAccessor && size == fileSize - FOOTER_SIZE
      ensures !ok ==> accessor == old(accessor) && size == old(size)
    {
      FixedFooterDecoded(data);
      footer := Decode(data);
      ok := Verify();
    }

    /** `vhd_chs` (vhdtool.c:290-332): compute the geometry of the current size and store it; with
        COMPAT_SIZE, while the triple is inexact below the clamp, grow the size and start again.
        The `return -1` of its caller at line 337 is unreachable: this never fails. */
    method Chs()
      modifies this`size, this`footer
      ensures size == ChsSize(old(size), compat)
      ensures footer == old(footer).(geometry := Geometry(Sectors(size)))
    {
      while true
        invariant ChsSize(size, compat) == ChsSize(old(size), compat)
        invariant footer == old(footer).(geometry := footer.geometry)
        decreases MAX_SECTORS - Sectors(size)
      {
        var sectors := Sectors(size);
        var g := Geometry(sectors);
        footer := footer.(geometry := g);
        if sectors < MAX_SECTORS {
          var newSectors := g.c * g.h * g.s;
          if newSectors != sectors && compat {
            RetryGrows(size);
            size := RetrySize(size, g);
            continue;
          }
        }
        return;
      }
    }

    /** `vhd_footer_make` (vhdtool.c:334-354). A size that is not a whole number of sectors is
        refused before anything is written; otherwise the size settles through `vhd_chs` and every
        field is filled in, the checksum last. */
    method FooterMake(dataOffset: U64, now: int, id: Bytes16) returns (ok: bool)
      modifies this`size, this`footer
      ensures ok == (old(size) % 512 == 0)
      ensures !ok ==> size == old(size) && footer == old(footer)
      ensures ok ==>
        && size == ChsSize(old(size), compat)
        && footer == BuildFooter(old(footer), size, diskType, dataOffset, now, id)
    {
      // `((vhd->size >> 9) << 9) != vhd->size`, with an arithmetic shift
      if (size / 512) * 512 != size {
        return false;
      }
      Chs();
      footer := footer.(cookie := COOKIE, features := FEATURES_RESERVED, dataOffset := dataOffset,
                        version := VERSION_1, timeStamp := TimeStamp(now), creatorApp := CREATOR_APP,
                        creatorVer := CREATOR_VERSION, creatorOs := CREATOR_OS,
                        originalSize := Unsigned64(size), currentSize := Unsigned64(size),
                        diskType := diskType, id := id);
      footer := footer.(checksum := 0);
      var csum := ComputeChecksum(Encode(footer));
      footer := footer.(checksum := csum);
      ok := true;
    }

    /** `vhd_dyn_make` (vhdtool.c:356-376). The cookie, offsets and version are stored before the
        block size is checked, so a refused block size still leaves them behind. */
    method DynMake(blockSize: U32) returns (st: Status)
      modifies this`dyn
      ensures var v := CheckBlockSize(size, blockSize);
        && (v.Accepted? ==> st == Ok && dyn == BuildDynHeader(old(dyn), offset, blockSize, v.entries))
        && (v == NotSectorMultiple ==> st == Failed && dyn == Stamp(old(dyn), offset))
        && (v == ZeroBlock ==> st == Fault && dyn == Stamp(old(dyn), offset).(blockSize := 0))
        && (v == BlockTooLarge || v == NotBlockMultiple ==>
              st == Failed && dyn == Stamp(old(dyn), offset).(blockSize := blockSize))
    {
      dyn := dyn.(cookie := DYN_COOKIE);
      dyn := dyn.(dataOffset := DOFF_DYN);
      dyn := dyn.(tableOffset := (offset + DYN_SIZE) % TWO_64);
      dyn := dyn.(headerVersion := HEADER_VERSION);
      if (blockSize / 512) * 512 != blockSize {
        return Failed;
      }
      dyn := dyn.(blockSize := blockSize);
      if blockSize == 0 {
        // `(uint64_t)vhd->size / block_size` divides by zero
        return Fault;
      }
      var entries := Unsigned64(size) / blockSize;
      if entries == 0 {
        return Failed;
      }
      if Signed64(entries * blockSize) != size {
        return Failed;
      }
      CheckBlockSizeSpec(size, blockSize);
      assert CheckBlockSize(size, blockSize) == Accepted(entries);
      ghost var d := Stamp(old(dyn), offset).(blockSize := blockSize, maxTabEntries := entries % TWO_32);
      dyn := dyn.(maxTabEntries := entries % TWO_32);
      dyn := dyn.(checksum := 0);
      assert dyn == d.(checksum := 0);
      var csum := ComputeChecksum(EncodeDyn(dyn));
      dyn := dyn.(checksum := csum);
      assert dyn == SealDyn(d);
      st := Ok;
    }

    /** `vhd_create` (vhdtool.c:378-418) on a freshly created, empty file. A fixed image gets the
        sparse hint and then only its footer, at the end of the logical region, and the raw
        accessor. A dynamic image gets footer, header, empty table, padding and footer again, and
        no accessor at all. */
    method CreateImage(blockSize: Int64, sparseOk: bool, now: int, id: Bytes16) returns (st: Status)
      requires Valid() && file == []
      modifies this`size, this`footer, this`dyn, this`offset, this`file, this`accessor
      ensures Valid()
      ensures old(size) % 512 != 0 ==>
        st == Failed && size == old(size) && footer == old(footer) && dyn == old(dyn) && file == []
        && accessor == old(accessor) && offset == old(offset)
      ensures old(size) % 512 == 0 ==>
        && size == ChsSize(old(size), compat)
        && footer == BuildFooter(old(footer), size, diskType, DataOffsetFor(diskType), now, id)
      ensures diskType == TYPE_FIXED ==> dyn == old(dyn)
      ensures diskType != TYPE_FIXED ==> accessor == old(accessor)
      ensures old(size) % 512 == 0 && diskType == TYPE_FIXED ==>
        && FixedOutcome(st, size, capacity, sparseOk, Encode(footer), file, offset)
        && accessor == (if sparseOk then RawAccessor else old(accessor))
      ensures old(size) % 512 == 0 && diskType != TYPE_FIXED ==>
        DynamicOutcome(st, size, EffectiveBlockSize(blockSize), capacity, old(dyn), dyn, Encode(footer), file, offset)
    {
      if diskType == TYPE_FIXED {
        st := CreateFixed(sparseOk, now, id);
      } else {
        st := CreateDynamic(blockSize, now, id);
      }
    }

    /** `vhd_create` on a handle of the fixed type: `vhd_footer_make`, then the fixed branch. */
    method CreateFixed(sparseOk: bool, now: int, id: Bytes16) returns (st: Status)
      requires Valid() && file == [] && diskType == TYPE_FIXED
      modifies this`size, this`footer, this`offset, this`file, this`accessor
      ensures Valid()
      ensures old(size) % 512 != 0 ==>
        st == Failed && size == old(size) && footer == old(footer) && file == [] && accessor == old(accessor)
        && offset == old(offset)
      ensures old(size) % 512 == 0 ==>
        && size == ChsSize(old(size), compat)
        && footer == BuildFooter(old(footer), size, TYPE_FIXED, DataOffsetFor(TYPE_FIXED), now, id)
        && FixedOutcome(st, size, capacity, sparseOk, Encode(footer), file, offset)
        && accessor == (if sparseOk then RawAccessor else old(accessor))
    {
      var ok := FooterMake(DataOffsetFor(diskType), now, id);
      if !ok {
        return Failed;
      }
      st := WriteFixed(sparseOk, Encode(footer));
    }

    /** `vhd_create` on a handle of any other type: `vhd_footer_make`, then the dynamic branch with
        the block size defaulted. */
    method CreateDynamic(blockSize: Int64, now: int, id: Bytes16) returns (st: Status)
      requires Valid() && file == [] && diskType != TYPE_FIXED
      modifies this`size, this`footer, this`dyn, this`offset, this`file
      ensures Valid()
      ensures old(size) % 512 != 0 ==>
        st == Failed && size == old(size) && footer == old(footer) && dyn == old(dyn) && file == []
        && offset == old(offset)
      ensures old(size) % 512 == 0 ==>
        && size == ChsSize(old(size), compat)
        && footer == BuildFooter(old(footer), size, diskType, DataOffsetFor(diskType), now, id)
        && DynamicOutcome(st, size, EffectiveBlockSize(blockSize), capacity, old(dyn), dyn, Encode(footer), file, offset)
    {
      var bs := EffectiveBlockSize(blockSize);
      var ok := FooterMake(DataOffsetFor(diskType), now, id);
      if !ok {
        return Failed;
      }
      st := WriteDynamic(bs, Encode(footer));
    }

    /** The fixed branch of `vhd_create` (vhdtool.c:386-405): mark the file sparse, then write the
        footer (`trailer`, as bytes) right after the logical region, leaving a hole before it. */
    method WriteFixed(sparseOk: bool, trailer: seq<Byte>) returns (st: Status)
      requires Valid() && file == [] && |trailer| == FOOTER_SIZE
      modifies this`offset, this`file, this`accessor
      ensures Valid()
      ensures FixedOutcome(st, size, capacity, sparseOk, trailer, file, offset)
      ensures accessor == (if sparseOk then RawAccessor else old(accessor))
    {
      if !sparseOk {
        // DeviceIoControl(FSCTL_SET_SPARSE) refused
        return Failed;
      }
      offset := size;
      accessor := RawAccessor;
      var ok := Write(trailer);
      if ok {
        WriteBeyondEnd([], size, trailer);
      }
      st := if ok then Ok else Failed;
    }

    /** The dynamic branch of `vhd_create` (vhdtool.c:408-415): footer, header, then the table.
        `trailer` is the footer as bytes. */
    method WriteDynamic(bs: Int64, trailer: seq<Byte>) returns (st: Status)
      requires Valid() && file == [] && bs != 0 && |trailer| == FOOTER_SIZE
      modifies this`dyn, this`offset, this`file
      ensures Valid()
      ensures DynamicOutcome(st, size, bs, capacity, old(dyn), dyn, trailer, file, offset)
    {
      var entries := TableEntries(size, bs);
      st := WriteHeaders(bs, trailer);
      ghost var pad := TrailerOffset(entries) - (FOOTER_SIZE + DYN_SIZE + 4 * entries);
      if st != Ok {
        BatPrefix(trailer, 0, entries, pad, trailer);
        return;
      }
      var ok := WriteTable(entries, trailer, trailer + EncodeDyn(dyn));
      st := if ok then Ok else Failed;
    }

    /** Lines 409-411: the footer at the start, the header built and written behind it. */
    method WriteHeaders(bs: Int64, trailer: seq<Byte>) returns (st: Status)
      requires Valid() && file == [] && bs != 0 && |trailer| == FOOTER_SIZE
      modifies this`dyn, this`offset, this`file
      ensures Valid()
      ensures var v := CheckBlockSize(size, bs % TWO_32);
        && (st == Ok <==> v.Accepted? && FOOTER_SIZE + DYN_SIZE <= capacity)
        && (st == Fault <==> v == ZeroBlock && FOOTER_SIZE <= capacity)
        && (st == Ok ==>
              && dyn == BuildDynHeader(old(dyn), FOOTER_SIZE, bs % TWO_32, v.entries)
              && file == trailer + EncodeDyn(dyn) && offset == FOOTER_SIZE + DYN_SIZE)
        && (st != Ok ==> file == [] || file == trailer)
    {
      offset := 0;
      var ok := Write(trailer);
      if !ok {
        return Failed;
      }
      WriteBeyondEnd([], 0, trailer);
      st := WriteDynHeader(bs % TWO_32, trailer);
    }

    /** Lines 410-411: build the header for the file's second sector and write it there. */
    method WriteDynHeader(blockSize: U32, ghost trailer: seq<Byte>) returns (st: Status)
      requires Valid() && file == trailer && offset == |trailer| == FOOTER_SIZE
      modifies this`dyn, this`offset, this`file
      ensures Valid()
      ensures var v := CheckBlockSize(size, blockSize);
        && (st == Ok <==> v.Accepted? && FOOTER_SIZE + DYN_SIZE <= capacity)
        && (st == Fault <==> v == ZeroBlock)
        && (st == Ok ==>
              && dyn == BuildDynHeader(old(dyn), FOOTER_SIZE, blockSize, v.entries)
              && file == trailer + EncodeDyn(dyn) && offset == FOOTER_SIZE + DYN_SIZE)
        && (st != Ok ==> file == trailer)
    {
      st := DynMake(blockSize);
      if st != Ok {
        return;
      }
      var header := EncodeDyn(dyn);
      var ok := Write(header);
      if !ok {
        return Failed;
      }
      WriteBeyondEnd(trailer, FOOTER_SIZE, header);
    }

    /** The empty table entry by entry, then the footer again at the next sector boundary
        (vhdtool.c:412-415). */
    method WriteTable(entries: nat, trailer: seq<Byte>, ghost head: seq<Byte>) returns (ok: bool)
      requires Valid() && file == head && offset == |head| == FOOTER_SIZE + DYN_SIZE
      requires |trailer| == FOOTER_SIZE
      modifies this`offset, this`file
      ensures Valid()
      ensures ok == (TrailerOffset(entries) + FOOTER_SIZE <= capacity)
      ensures ok ==> offset == TrailerOffset(entries) + FOOTER_SIZE
      ensures var pad := TrailerOffset(entries) - (FOOTER_SIZE + DYN_SIZE + 4 * entries);
        && (ok ==> file == head + EmptyBat(entries) + Zeros(pad) + trailer)
        && (!ok ==> file <= head + EmptyBat(entries) + Zeros(pad) + trailer)
    {
      ghost var pad := TrailerOffset(entries) - (FOOTER_SIZE + DYN_SIZE + 4 * entries);
      ok := WriteBat(entries, head);
      if !ok {
        BatPrefix(head, entries, entries, pad, trailer);
        return false;
      }
      RoundUpIsLeastMultiple(offset, 512);
      offset := Signed64(RoundUp(offset, 512));
      ok := Write(trailer);
      if !ok {
        BatPrefix(head, entries, entries, pad, trailer);
        return false;
      }
      WriteBeyondEnd(head + EmptyBat(entries), TrailerOffset(entries), trailer);
    }

    /** Lines 411-413: one empty 32-bit entry per block, written one after the other; the first
        write that does not fit stops the loop. */
    method WriteBat(entries: nat, ghost head: seq<Byte>) returns (ok: bool)
      requires Valid() && file == head && offset == |head| == FOOTER_SIZE + DYN_SIZE
      modifies this`offset, this`file
      ensures Valid()
      ensures ok == (|head| + 4 * entries <= capacity)
      ensures ok ==> file == head + EmptyBat(entries) && offset == |head| + 4 * entries
      ensures !ok ==> file <= head + EmptyBat(entries)
    {
      var left := entries;
      ok := true;
      while left > 0
        invariant 0 <= left <= entries
        invariant Valid()
        invariant file == head + EmptyBat(entries - left)
        invariant offset == |head| + 4 * (entries - left)
      {
        ok := Write(Be32(BAT_ENTRY_EMPTY));
        if !ok {
          BatPrefix(head, entries - left, entries, 0, []);
          return false;
        }
        WriteBeyondEnd(head + EmptyBat(entries - left), offset - 4, Be32(BAT_ENTRY_EMPTY));
        EmptyBatStep(entries - left);
        left := left - 1;
      }
    }
  }

  /** A partly written table is a prefix of the finished layout. */
  lemma BatPrefix(head: seq<Byte>, k: nat, n: nat, pad: nat, trailer: seq<Byte>)
    requires k <= n
    ensures head + EmptyBat(k) <= head + EmptyBat(n) + Zeros(pad) + trailer
  {
    assert (head + EmptyBat(n) + Zeros(pad) + trailer)[..|head| + 4 * k] == head + EmptyBat(k);
  }

  /** `vhd_copy` (vhdtool.c:420-429): move the source's logical region to the destination in
      512-byte chunks at rising offsets through each image's accessor, stopping at the first
      failure. A missing accessor is a call through NULL. */
  method Copy(src: Vhd, dst: Vhd) returns (st: Status)
    requires src != dst && src.Valid() && dst.Valid()
    modifies src`offset, dst`offset, dst`file
    ensures dst.Valid()
    ensures st == Ok <==>
      src.size <= 0 ||
      (src.accessor == RawAccessor && dst.accessor == RawAccessor
       && ChunksOkBelow(src.size, src.size, |src.file|, dst.size, dst.capacity))
    ensures st == Fault ==> src.size > 0 && (src.accessor == NoAccessor || dst.accessor == NoAccessor)
    ensures (src.size > 0 && dst.accessor == NoAccessor && src.accessor == RawAccessor
             && RawInBounds(0, 512, src.size) && 512 <= |src.file|) ==> st == Fault
    ensures src.size <= 0 ==> st == Ok && dst.file == old(dst.file)
    ensures st == Ok && src.size > 0 ==>
      RoundUp(src.size, 512) <= |src.file| &&
      dst.file == WriteAt(old(dst.file), 0, src.file[..RoundUp(src.size, 512)])
    ensures exists k :: 0 <= k <= |src.file| && dst.file == WriteAt(old(dst.file), 0, src.file[..k])
  {
    ghost var start := dst.file;
    var pos: Int64 := 0;
    assert WriteAt(start, 0, src.file[..0]) == start;
    while pos < src.size
      invariant 0 <= pos && pos % 512 == 0 && (pos > 0 ==> pos - 512 < src.size)
      invariant dst.Valid() && pos <= |src.file|
      invariant ChunksOkBelow(pos, src.size, |src.file|, dst.size, dst.capacity)
      invariant pos > 0 ==> src.accessor == RawAccessor && dst.accessor == RawAccessor
      invariant dst.file == WriteAt(start, 0, src.file[..pos])
    {
      st := CopyChunk(src, dst, pos);
      if st != Ok {
        if src.accessor == RawAccessor && dst.accessor == RawAccessor {
          CopyStopped(pos, src.size, |src.file|, dst.size, dst.capacity);
        }
        assert 0 <= pos <= |src.file| && dst.file == WriteAt(start, 0, src.file[..pos]);
        return;
      }
      ChunksOkExtend(pos, src.size, |src.file|, dst.size, dst.capacity);
      assert src.file[..pos + 512] == src.file[..pos] + src.file[pos..pos + 512];
      WriteAdjacent(start, 0, src.file[..pos], src.file[pos..pos + 512]);
      pos := pos + 512;
    }
    if src.size > 0 {
      ChunksOkDone(pos, src.size, |src.file|, dst.size, dst.capacity);
      CopyFinished(pos, src.size);
    }
    assert 0 <= pos <= |src.file| && dst.file == WriteAt(start, 0, src.file[..pos]);
    return Ok;
  }

  /** A chunk inside the region that cannot be moved makes the whole copy fail. */
  lemma CopyStopped(pos: Int64, srcSize: Int64, srcLen: nat, dstSize: Int64, dstCapacity: nat)
    requires 0 <= pos < srcSize && pos % 512 == 0
    requires !ChunkOk(pos, srcSize, srcLen, dstSize, dstCapacity)
    ensures !ChunksOkBelow(srcSize, srcSize, srcLen, dstSize, dstCapacity)
  {
  }

  /** The loop leaves `pos` at the region's size rounded up to whole sectors. */
  lemma CopyFinished(pos: Int64, size: Int64)
    requires 0 < size <= pos && pos % 512 == 0 && pos - 512 < size
    ensures pos == RoundUp(size, 512)
  {
    RoundUpIsLeastMultiple(size, 512);
    var r := RoundUp(size, 512);
    if r < pos {
      MultiplesApart(r, pos, 512);
    } else if pos < r {
      MultiplesApart(pos, r, 512);
    }
  }

  /** One round of the loop in `vhd_copy` (vhdtool.c:425-426): read the chunk at `pos` through the
      source's accessor, write it at `pos` through the destination's. */
  method CopyChunk(src: Vhd, dst: Vhd, pos: Int64) returns (st: Status)
    requires src != dst && src.Valid() && dst.Valid()
    modifies src`offset, dst`offset, dst`file
    ensures dst.Valid()
    ensures st == Ok <==>
      src.accessor == RawAccessor && dst.accessor == RawAccessor
      && ChunkOk(pos, src.size, |src.file|, dst.size, dst.capacity)
    ensures st == Fault <==>
      src.accessor == NoAccessor
      || (dst.accessor == NoAccessor && RawInBounds(pos, 512, src.size) && 0 <= pos && pos + 512 <= |src.file|)
    ensures st == Ok ==> dst.file == WriteAt(old(dst.file), pos, src.file[pos..pos + 512])
    ensures st != Ok ==> dst.file == old(dst.file)
  {
    if src.accessor == NoAccessor {
      return Fault;
    }
    var ok, chunk := src.RawRead(pos, 512);
    if !ok {
      return Failed;
    }
    if dst.accessor == NoAccessor {
      return Fault;
    }
    ok := dst.RawWrite(pos, chunk);
    st := if ok then Ok else Failed;
  }
}

/** What the files `vhd_create` and `vhd_copy` leave behind look like when they are opened again. */
module ImageFacts {
  import opened Ints
  import opened Bytes
  import opened VhdFooter
  import opened DynHeader
  import opened Image

  /** A fixed image (data, the zeros of the sparse region, the footer) opens as a verified fixed
      disk whose logical size is the region before the footer and whose first bytes are the data. */
  lemma FixedImageReopens(data: seq<Byte>, size: nat, f: Footer, rawOk: bool)
    requires |data| <= size && size + FOOTER_SIZE < TWO_63
    requires f.cookie == COOKIE && f.diskType == TYPE_FIXED
    ensures var image := data + Zeros(size - |data|) + Encode(f);
      && Detect(image, rawOk) == VerifiedFixed(size)
      && image[..|data|] == data
      && image[..size] == data + Zeros(size - |data|)
  {
    var image := data + Zeros(size - |data|) + Encode(f);
    assert image[|image| - FOOTER_SIZE..] == Encode(f);
    EncodeSlices(f);
  }

  /** A dynamic image is not recognised: with OPEN_RAW_OK it opens as a raw image of the whole
      file, footer and header included, and without it not at all. */
  lemma DynamicImageIsRaw(f: Footer, header: seq<Byte>, entries: nat, rawOk: bool)
    requires f.diskType == TYPE_DYNAMIC
    requires |DynamicLayout(Encode(f), header, entries)| < TWO_63
    ensures var image := DynamicLayout(Encode(f), header, entries);
      Detect(image, rawOk) == if rawOk then RawImage(|image|) else Unopenable
  {
    var image := DynamicLayout(Encode(f), header, entries);
    assert image[|image| - FOOTER_SIZE..] == Encode(f);
    EncodeSlices(f);
    Be32RoundTrip(TYPE_FIXED);
    Be32RoundTrip(TYPE_DYNAMIC);
  }

  /** The dynamic layout: the footer copy at 0, the header at 512, the table at 1536 with every
      entry empty, the footer again at a sector boundary after the table, which ends the file. */
  lemma DynamicLayoutShape(f: seq<Byte>, header: seq<Byte>, entries: nat)
    requires |f| == FOOTER_SIZE && |header| == DYN_SIZE
    ensures var image := DynamicLayout(f, header, entries); var t := TrailerOffset(entries);
      && |image| == t + FOOTER_SIZE && t % 512 == 0
      && image[..FOOTER_SIZE] == f && image[t..] == f
      && image[FOOTER_SIZE..FOOTER_SIZE + DYN_SIZE] == header
      && (forall i :: FOOTER_SIZE + DYN_SIZE <= i < FOOTER_SIZE + DYN_SIZE + 4 * entries ==> image[i] == 0xFF)
      && (forall i :: FOOTER_SIZE + DYN_SIZE + 4 * entries <= i < t ==> image[i] == 0)
  {
    var image := DynamicLayout(f, header, entries);
    var t := TrailerOffset(entries);
    assert image[..FOOTER_SIZE] == f;
    assert image[t..] == f;
    assert image[FOOTER_SIZE..FOOTER_SIZE + DYN_SIZE] == header;
  }

  /** A 64 MiB dynamic disk with 4 MiB blocks has a 16-entry table, and its trailing footer sits
      at 2048. */
  lemma SixtyFourMiBDynamic()
    ensures CheckBlockSize(0x400_0000, 0x40_0000) == Accepted(16)
    ensures TableEntries(0x400_0000, 0x40_0000) == 16
    ensures TrailerOffset(16) == 2048
  {
    assert CheckBlockSize(0x400_0000, 0x40_0000).Accepted?;
    assert Unsigned64(0x400_0000) == 0x400_0000;
  }
}
