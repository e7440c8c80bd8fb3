/** The two commands, `vhd_cmd_create` (vhdtool.c:450-462) and `vhd_cmd_convert` (vhdtool.c:431-448),
    with `vhd_open`'s exclusive creation and `vhd_close`'s clean-up (vhdtool.c:233-278). A path is
    either free (`None`) or holds a file; a command's effect is what the destination path holds
    afterwards. */
module Commands {
  import opened Ints
  import opened Bytes
  import opened DiskGeometry
  import opened VhdFooter
  import opened DynHeader
  import opened Disk
  import opened Image
  import opened ImageFacts
  import opened SizeArg

  datatype Option<T> = None | Some(value: T)

  /** The footer a command writes for a disk that ends up `size` bytes large. */
  function CommandFooter(size: Int64, diskType: U32, now: int, id: Bytes16): Footer
  {
    BuildFooter(ZERO_FOOTER, size, diskType, DataOffsetFor(diskType), now, id)
  }

  /** A fixed image holding `data` at its start: the data, zeros up to `size`, then the encoded
      footer `trailer`. */
  function FixedImage(data: seq<Byte>, size: int, trailer: seq<Byte>): seq<Byte>
    requires |data| <= size
  {
    data + Zeros(size - |data|) + trailer
  }

  lemma FixedImageBlank(size: nat, trailer: seq<Byte>)
    ensures FixedImage([], size, trailer) == Zeros(size) + trailer
  {
    assert [] + Zeros(size) == Zeros(size);
  }

  /** The complete file `vhd_create` writes for a disk of `size` bytes (after `vhd_chs`). */
  function CreatedImage(size: Int64, diskType: U32, blockSize: Int64, now: int, id: Bytes16): seq<Byte>
    requires diskType == TYPE_FIXED ==> size >= 0
  {
    var f := CommandFooter(size, diskType, now, id);
    if diskType == TYPE_FIXED then FixedImage([], size, Encode(f))
    else
      var bs := EffectiveBlockSize(blockSize);
      var v := CheckBlockSize(size, bs % TWO_32);
      var header := BuildDynHeader(ZERO_DYN, FOOTER_SIZE, bs % TWO_32, if v.Accepted? then v.entries else 0);
      DynamicLayout(Encode(f), EncodeDyn(header), TableEntries(size, bs))
  }

  /** `vhd_close` after `vhd_create` on a created file: kept on success, unlinked on failure; a
      crash leaves whatever was written. */
  function Closed(st: Status, file: seq<Byte>): Option<seq<Byte>>
  {
    if st == Failed then None else Some(file)
  }

  /** `vhd_open` with OPEN_CREAT on a free path, the type and size set, then `vhd_create`
      (vhdtool.c:439-442, 458-460). */
  method NewImage(diskType: U32, size: Int64, blockSize: Int64, compat: bool, capacity: FileSize,
                  sparseOk: bool, now: int, id: Bytes16)
    returns (v: Vhd, st: Status)
    ensures fresh(v) && v.Valid() && v.capacity == capacity
    ensures st == Ok ==>
      && size % 512 == 0 && v.size == ChsSize(size, compat)
      && (diskType == TYPE_FIXED ==> v.size >= 0)
      && v.file == CreatedImage(v.size, diskType, blockSize, now, id)
    ensures diskType == TYPE_FIXED ==>
      var final := ChsSize(size, compat);
      && (st == Ok <==> size % 512 == 0 && sparseOk && 0 <= final && final + FOOTER_SIZE <= capacity)
      && st != Fault
      && (st == Ok ==> v.accessor == RawAccessor)
    ensures diskType != TYPE_FIXED ==> v.accessor == NoAccessor
    ensures diskType != TYPE_FIXED && size % 512 != 0 ==> st == Failed && v.file == []
    ensures diskType != TYPE_FIXED && size % 512 == 0 ==>
      && v.size == ChsSize(size, compat)
      && DynamicOutcome(st, v.size, EffectiveBlockSize(blockSize), capacity, ZERO_DYN, v.dyn,
                        Encode(CommandFooter(v.size, diskType, now, id)), v.file, v.offset)
  {
    if diskType == TYPE_FIXED {
      v, st := NewFixed(size, compat, capacity, sparseOk, now, id);
    } else {
      v, st := NewDynamic(diskType, size, blockSize, compat, capacity, now, id);
    }
  }

  /** `NewImage` for a fixed disk. */
  method NewFixed(size: Int64, compat: bool, capacity: FileSize, sparseOk: bool, now: int, id: Bytes16)
    returns (v: Vhd, st: Status)
    ensures fresh(v) && v.Valid() && v.capacity == capacity
    ensures st == Ok ==>
      && size % 512 == 0 && v.size == ChsSize(size, compat) && v.size >= 0 && v.accessor == RawAccessor
      && v.file == FixedImage([], v.size, Encode(CommandFooter(v.size, TYPE_FIXED, now, id)))
    ensures var final := ChsSize(size, compat);
      && (st == Ok <==> size % 512 == 0 && sparseOk && 0 <= final && final + FOOTER_SIZE <= capacity)
      && st != Fault
  {
    v := new Vhd.Blank([], capacity, compat);
    v.diskType := TYPE_FIXED;
    v.size := size;
    st := v.CreateFixed(sparseOk, now, id);
    if st == Ok {
      FixedImageBlank(v.size, Encode(v.footer));
    }
  }

  /** `NewImage` for a dynamic (or any other non-fixed) disk. */
  method NewDynamic(diskType: U32, size: Int64, blockSize: Int64, compat: bool, capacity: FileSize,
                    now: int, id: Bytes16)
    returns (v: Vhd, st: Status)
    requires diskType != TYPE_FIXED
    ensures fresh(v) && v.Valid() && v.capacity == capacity && v.accessor == NoAccessor
    ensures st == Ok ==>
      && size % 512 == 0 && v.size == ChsSize(size, compat)
      && v.file == CreatedImage(v.size, diskType, blockSize, now, id)
    ensures size % 512 != 0 ==> st == Failed && v.file == []
    ensures size % 512 == 0 ==>
      && v.size == ChsSize(size, compat)
      && DynamicOutcome(st, v.size, EffectiveBlockSize(blockSize), capacity, ZERO_DYN, v.dyn,
                        Encode(CommandFooter(v.size, diskType, now, id)), v.file, v.offset)
  {
    v := new Vhd.Blank([], capacity, compat);
    v.diskType := diskType;
    v.size := size;
    st := v.CreateDynamic(blockSize, now, id);
    if st == Ok {
      DynamicCreated(v.size, diskType, blockSize, capacity, now, id, v.dyn, v.file, v.offset);
    }
  }

  /** A successful dynamic `vhd_create` on a fresh handle leaves exactly the created layout. */
  lemma DynamicCreated(size: Int64, diskType: U32, blockSize: Int64, capacity: nat, now: int, id: Bytes16,
                       dyn: DynHeader, file: seq<Byte>, offset: Int64)
    requires diskType != TYPE_FIXED
    requires DynamicOutcome(Ok, size, EffectiveBlockSize(blockSize), capacity, ZERO_DYN, dyn,
                            Encode(CommandFooter(size, diskType, now, id)), file, offset)
    ensures file == CreatedImage(size, diskType, blockSize, now, id)
  {
  }

  /** `vhd_cmd_create`: a zero size is a usage error; an existing path makes the exclusive open
      fail and is left alone; otherwise the image is created, and removed again if that fails. */
  method CreateCommand(existing: Option<seq<Byte>>, size: Int64, requested: U32, blockSize: Int64,
                       compat: bool, capacity: FileSize, sparseOk: bool, now: int, id: Bytes16)
    returns (st: Status, result: Option<seq<Byte>>)
    ensures size == 0 || existing.Some? ==> st == Failed && result == existing
    ensures size != 0 && existing.None? && st == Failed ==> result == None
    ensures st == Ok ==>
      var diskType := DefaultType(requested, blockSize);
      var final := ChsSize(size, compat);
      && existing.None? && size % 512 == 0
      && (diskType == TYPE_FIXED ==> final >= 0)
      && result == Some(CreatedImage(final, diskType, blockSize, now, id))
    ensures size != 0 && existing.None? && DefaultType(requested, blockSize) == TYPE_FIXED ==>
      var final := ChsSize(size, compat);
      st == (if size % 512 == 0 && sparseOk && 0 <= final && final + FOOTER_SIZE <= capacity then Ok else Failed)
  {
    if size == 0 {
      return Failed, existing;
    }
    var diskType := DefaultType(requested, blockSize);
    if existing.Some? {
      // O_CREAT | O_EXCL on an existing path
      return Failed, existing;
    }
    var v;
    v, st := NewImage(diskType, size, blockSize, compat, capacity, sparseOk, now, id);
    result := Closed(st, v.file);
  }

  /** `vhd_cmd_convert`: open the source, accepting a raw image; create the destination with the
      source's logical size; copy the logical region across; remove the destination on failure.
      Copying into a dynamic destination calls through its missing write accessor. */
  method ConvertCommand(source: seq<Byte>, sourceCapacity: FileSize, existing: Option<seq<Byte>>,
                        requested: U32, blockSize: Int64, compat: bool, capacity: FileSize,
                        sparseOk: bool, now: int, id: Bytes16)
    returns (st: Status, result: Option<seq<Byte>>)
    requires |source| <= sourceCapacity
    ensures Detect(source, true).Unopenable? || existing.Some? ==> st == Failed && result == existing
    ensures !Detect(source, true).Unopenable? && existing.None? && st == Failed ==> result == None
    ensures !Detect(source, true).Unopenable? && existing.None?
            && DefaultType(requested, blockSize) == TYPE_FIXED ==>
      var n := Detect(source, true).size;
      var final := ChsSize(n, compat);
      && (st == Ok <==> n % 512 == 0 && sparseOk && final + FOOTER_SIZE <= capacity)
      && (st == Ok ==> result == Some(FixedImage(source[..n], final, Encode(CommandFooter(final, TYPE_FIXED, now, id)))))
    ensures !Detect(source, true).Unopenable? && existing.None?
            && DefaultType(requested, blockSize) != TYPE_FIXED && Detect(source, true).size > 0 ==>
      st != Ok
  {
    var diskType := DefaultType(requested, blockSize);
    var src := Vhd.Open(source, sourceCapacity, true);
    if src == null {
      return Failed, existing;
    }
    if existing.Some? {
      return Failed, existing;
    }
    if diskType == TYPE_FIXED {
      st, result := ConvertToFixed(src, compat, capacity, sparseOk, now, id);
    } else {
      st, result := ConvertToDynamic(src, diskType, blockSize, compat, capacity, now, id);
    }
  }

  /** The rest of `vhd_cmd_convert` for a fixed destination: create it with the source's size, copy
      the source's logical region into it, and keep it only when both succeed. */
  method ConvertToFixed(src: Vhd, compat: bool, capacity: FileSize, sparseOk: bool, now: int, id: Bytes16)
    returns (st: Status, result: Option<seq<Byte>>)
    requires src.Valid() && src.accessor == RawAccessor && 0 <= src.size <= |src.file|
    modifies src`offset
    ensures var n := src.size; var final := ChsSize(n, compat);
      && (st == Ok <==> n % 512 == 0 && sparseOk && final + FOOTER_SIZE <= capacity)
      && (st == Ok ==> result == Some(FixedImage(src.file[..n], final, Encode(CommandFooter(final, TYPE_FIXED, now, id)))))
      && (st != Ok ==> result == None)
  {
    var dst;
    dst, st := NewFixed(src.size, compat, capacity, sparseOk, now, id);
    if st == Ok {
      ghost var n := src.size;
      FixedCopyFits(n, |src.file|, dst.size, dst.capacity);
      st := Copy(src, dst);
      FixedCopyResult(src.file, n, dst.size, Encode(CommandFooter(dst.size, TYPE_FIXED, now, id)));
    }
    result := Closed(st, dst.file);
  }

  /** The rest of `vhd_cmd_convert` for a dynamic destination: the copy of any non-empty source calls
      through the destination's missing write accessor. */
  method ConvertToDynamic(src: Vhd, diskType: U32, blockSize: Int64, compat: bool, capacity: FileSize,
                          now: int, id: Bytes16)
    returns (st: Status, result: Option<seq<Byte>>)
    requires diskType != TYPE_FIXED
    requires src.Valid() && src.accessor == RawAccessor && 0 <= src.size <= |src.file|
    modifies src`offset
    ensures st == Failed ==> result == None
    ensures src.size > 0 ==> st != Ok
  {
    if src.size % 512 == 0 && src.size > 0 {
      assert src.size >= 512;
      RawInBoundsExact(0, 512, src.size);
    }
    var dst;
    dst, st := NewDynamic(diskType, src.size, blockSize, compat, capacity, now, id);
    if st == Ok {
      st := CopyWithoutWriter(src, dst);
    }
    result := Closed(st, dst.file);
  }

  /** `vhd_copy` into a destination that has no write accessor: there is nothing to do for an empty
      region; otherwise the copy cannot succeed, and once the first chunk has been read it is
      written through the missing accessor. */
  method CopyWithoutWriter(src: Vhd, dst: Vhd) returns (st: Status)
    requires src != dst && src.Valid() && dst.Valid() && dst.accessor == NoAccessor
    modifies src`offset, dst`offset, dst`file
    ensures st == Ok <==> src.size <= 0
    ensures src.size > 0 && src.accessor == RawAccessor && RawInBounds(0, 512, src.size) && 512 <= |src.file| ==>
      st == Fault
  {
    st := Copy(src, dst);
  }

  /** A converted fixed image opens again as a verified fixed disk of the settled size, and its
      logical region starts with the bytes that were copied into it. */
  lemma ConvertedImageReopens(data: seq<Byte>, final: Int64, now: int, id: Bytes16, rawOk: bool)
    requires |data| <= final && final + FOOTER_SIZE < TWO_63
    ensures var image := FixedImage(data, final, Encode(CommandFooter(final, TYPE_FIXED, now, id)));
      && Detect(image, rawOk) == VerifiedFixed(final)
      && image[..|data|] == data
  {
    FixedImageReopens(data, final, CommandFooter(final, TYPE_FIXED, now, id), rawOk);
  }

  /** A 10 GiB fixed disk ("10G", a whole CHS triple away from any retry when COMPAT_SIZE is off):
      the last 512 bytes of the created file decode to a fixed-disk footer whose two sizes are
      10737418240. */
  lemma TenGigabyteFixedFooter(now: int, id: Bytes16)
    ensures var image := CreatedImage(ChsSize(10_737_418_240, false), TYPE_FIXED, 0, now, id);
      var f := Decode(image[|image| - FOOTER_SIZE..]);
      && |image| == 10_737_418_240 + FOOTER_SIZE
      && f.cookie == COOKIE && f.diskType == TYPE_FIXED
      && f.originalSize == f.currentSize == 10_737_418_240
  {
    ChsSizeSpec(10_737_418_240, false);
    var footer := CommandFooter(10_737_418_240, TYPE_FIXED, now, id);
    var image := CreatedImage(10_737_418_240, TYPE_FIXED, 0, now, id);
    FixedImageBlank(10_737_418_240, Encode(footer));
    assert image[|image| - FOOTER_SIZE..] == Encode(footer);
    DecodeEncode(footer);
  }

  /** Every chunk of a 512-aligned source region fits the fixed destination built for it. */
  lemma FixedCopyFits(n: Int64, srcLen: nat, dstSize: Int64, dstCapacity: nat)
    requires 0 <= n <= srcLen && n % 512 == 0
    requires n <= dstSize && dstSize + FOOTER_SIZE <= dstCapacity
    ensures ChunksOkBelow(n, n, srcLen, dstSize, dstCapacity)
  {
    forall pos: Int64 | 0 <= pos < n && pos % 512 == 0
      ensures ChunkOk(pos, n, srcLen, dstSize, dstCapacity)
    {
      DivModUnique(pos, 512, pos / 512, 0);
      DivModUnique(n, 512, n / 512, 0);
      assert pos / 512 < n / 512;
      assert pos + 512 <= n;
      RawInBoundsExact(pos, 512, n);
      RawInBoundsExact(pos, 512, dstSize);
    }
  }

  /** Copying the whole region of a 512-aligned source over a fixed image's zeros. */
  lemma FixedCopyResult(source: seq<Byte>, n: Int64, size: nat, trailer: seq<Byte>)
    requires 0 <= n <= |source| && n <= size && n % 512 == 0
    ensures n > 0 ==> WriteAt(FixedImage([], size, trailer), 0, source[..RoundUp(n, 512)])
                      == FixedImage(source[..n], size, trailer)
    ensures n == 0 ==> FixedImage([], size, trailer) == FixedImage(source[..n], size, trailer)
  {
    if n > 0 {
      RoundUpIsLeastMultiple(n, 512);
      DivModUnique(n + 511, 512, n / 512, 511);
      WriteOverZeros(size, trailer, source[..n]);
      FixedImageBlank(size, trailer);
    } else {
      assert source[..n] == [];
    }
  }
}
