/** The 512-byte hard disk footer (`struct vhd_footer`, vhdtool.c:81-98) and how
    `vhd_footer_make` (vhdtool.c:334-354) fills it. */
module VhdFooter {
  import opened Ints
  import opened Bytes
  import opened DiskGeometry

  type Bytes427 = s: seq<Byte> | |s| == 427 witness Zeros(427)

  /** "conectix" */
  const COOKIE: Bytes8 := [0x63, 0x6f, 0x6e, 0x65, 0x63, 0x74, 0x69, 0x78]
  /** "vhdt" */
  const CREATOR_APP: Bytes4 := [0x76, 0x68, 0x64, 0x74]
  /** "Win " */
  const CREATOR_OS: Bytes4 := [0x57, 0x69, 0x6e, 0x20]
  const FEATURES_RESERVED: U32 := 2
  const VERSION_1: U32 := 0x0001_0000
  const CREATOR_VERSION: U32 := 1
  /** Data offset of a fixed disk: all ones. */
  const DOFF_FIXED: U64 := MAX_U64
  const TYPE_FIXED: U32 := 2
  const TYPE_DYNAMIC: U32 := 3
  const TYPE_DIFFERENCING: U32 := 4
  const FOOTER_SIZE: nat := 512
  /** Seconds from 1970-01-01 to 2000-01-01, UTC. */
  const SECONDS_OFFSET: int := 946684800

  /** The footer's fields as host values; multi-byte integers are stored big-endian by Encode. */
  datatype Footer = Footer(
    cookie: Bytes8,
    features: U32,
    version: U32,
    dataOffset: U64,
    timeStamp: U32,
    creatorApp: Bytes4,
    creatorVer: U32,
    creatorOs: Bytes4,
    originalSize: U64,
    currentSize: U64,
    geometry: Chs,
    diskType: U32,
    checksum: U32,
    id: Bytes16,
    savedState: Byte,
    reserved: Bytes427)

  /** The footer of a freshly cleared `struct vhd` (the `memset` at vhdtool.c:235). */
  const ZERO_FOOTER: Footer :=
    Footer([0, 0, 0, 0, 0, 0, 0, 0], 0, 0, 0, 0, [0, 0, 0, 0], 0, [0, 0, 0, 0], 0, 0, Chs(0, 0, 0), 0, 0,
           [0, 0, 0, 0, 0, 0, 0, 0, 0, 0, 0, 0, 0, 0, 0, 0], 0, Zeros(427))

  /** Bytes 0..63: cookie up to disk type. */
  function Head(f: Footer): (r: seq<Byte>)
    ensures |r| == 64
  {
    f.cookie + Be32(f.features) + Be32(f.version) + Be64(f.dataOffset) + Be32(f.timeStamp)
    + f.creatorApp + Be32(f.creatorVer) + f.creatorOs + Be64(f.originalSize) + Be64(f.currentSize)
    + Be16(f.geometry.c) + [f.geometry.h, f.geometry.s] + Be32(f.diskType)
  }

  /** Bytes 68..511: id, saved state, reserved. */
  function Tail(f: Footer): (r: seq<Byte>)
    ensures |r| == 444
  {
    f.id + [f.savedState] + f.reserved
  }

  /** The footer as it lies in memory and on disk. */
  function Encode(f: Footer): (r: seq<Byte>)
    ensures |r| == FOOTER_SIZE
  {
    Head(f) + Be32(f.checksum) + Tail(f)
  }

  /** Read a footer back from its 512 bytes (`vhd_read` into `&vhd->footer` and `be*toh`). */
  function Decode(b: seq<Byte>): Footer
    requires |b| == FOOTER_SIZE
  {
    Footer(b[0..8], FromBe32(b[8..12]), FromBe32(b[12..16]), FromBe64(b[16..24]), FromBe32(b[24..28]),
           b[28..32], FromBe32(b[32..36]), b[36..40], FromBe64(b[40..48]), FromBe64(b[48..56]),
           Chs(FromBe16(b[56..58]), b[58], b[59]), FromBe32(b[60..64]), FromBe32(b[64..68]),
           b[68..84], b[84], b[85..512])
  }

  lemma HeadSlices(f: Footer)
    ensures var h := Head(f);
      && h[0..8] == f.cookie && h[8..12] == Be32(f.features) && h[12..16] == Be32(f.version)
      && h[16..24] == Be64(f.dataOffset) && h[24..28] == Be32(f.timeStamp) && h[28..32] == f.creatorApp
      && h[32..36] == Be32(f.creatorVer) && h[36..40] == f.creatorOs && h[40..48] == Be64(f.originalSize)
      && h[48..56] == Be64(f.currentSize) && h[56..58] == Be16(f.geometry.c)
      && h[58] == f.geometry.h && h[59] == f.geometry.s && h[60..64] == Be32(f.diskType)
  {
  }

  lemma EncodeSlices(f: Footer)
    ensures var b := Encode(f);
      && b[0..8] == f.cookie && b[8..12] == Be32(f.features) && b[12..16] == Be32(f.version)
      && b[16..24] == Be64(f.dataOffset) && b[24..28] == Be32(f.timeStamp) && b[28..32] == f.creatorApp
      && b[32..36] == Be32(f.creatorVer) && b[36..40] == f.creatorOs && b[40..48] == Be64(f.originalSize)
      && b[48..56] == Be64(f.currentSize) && b[56..58] == Be16(f.geometry.c)
      && b[58] == f.geometry.h && b[59] == f.geometry.s && b[60..64] == Be32(f.diskType)
      && b[64..68] == Be32(f.checksum) && b[68..84] == f.id && b[84] == f.savedState
      && b[85..512] == f.reserved
  {
    var b := Encode(f);
    var h := Head(f);
    HeadSlices(f);
    assert forall i, j | 0 <= i <= j <= 64 :: b[i..j] == h[i..j];
    assert forall i | 0 <= i < 64 :: b[i] == h[i];
    assert b[64..68] == Be32(f.checksum);
    assert b[68..84] == f.id && b[84] == f.savedState && b[85..512] == f.reserved;
  }

  /** Decoding the encoding gives the footer back, field for field. */
  lemma DecodeEncode(f: Footer)
    ensures Decode(Encode(f)) == f
  {
    EncodeSlices(f);
    Be32RoundTrip(f.features); Be32RoundTrip(f.version); Be64RoundTrip(f.dataOffset);
    Be32RoundTrip(f.timeStamp); Be32RoundTrip(f.creatorVer); Be64RoundTrip(f.originalSize);
    Be64RoundTrip(f.currentSize); Be16RoundTrip(f.geometry.c); Be32RoundTrip(f.diskType);
    Be32RoundTrip(f.checksum);
  }

  /** Every 512-byte string is the encoding of the footer it decodes to. */
  lemma EncodeDecode(b: seq<Byte>)
    requires |b| == FOOTER_SIZE
    ensures Encode(Decode(b)) == b
  {
    var f := Decode(b);
    HeadOfDecoded(b);
    Be32Inverse(b[64..68]);
    assert Tail(f) == b[68..] by {
      assert b[68..] == b[68..84] + [b[84]] + b[85..512];
    }
    assert b == b[..64] + b[64..68] + b[68..];
  }

  /** The first 64 bytes re-encode to themselves. */
  lemma HeadOfDecoded(b: seq<Byte>)
    requires |b| == FOOTER_SIZE
    ensures Head(Decode(b)) == b[..64]
  {
    Be32Inverse(b[8..12]); Be32Inverse(b[12..16]); Be64Inverse(b[16..24]); Be32Inverse(b[24..28]);
    Be32Inverse(b[32..36]); Be64Inverse(b[40..48]); Be64Inverse(b[48..56]); Be16Inverse(b[56..58]);
    Be32Inverse(b[60..64]);
    assert b[..64] == b[0..8] + b[8..12] + b[12..16] + b[16..24] + b[24..28] + b[28..32] + b[32..36]
      + b[36..40] + b[40..48] + b[48..56] + b[56..58] + [b[58], b[59]] + b[60..64];
  }

  /** Whether the checksum field of a 512-byte footer matches the rest of it. */
  ghost predicate ChecksumValid(b: seq<Byte>)
    requires |b| == FOOTER_SIZE
  {
    ChecksumHolds(b, 64)
  }

  /** Lines 350-352: zero the checksum, sum the record, store the complement big-endian. */
  function Seal(f: Footer): (r: Footer)
    ensures r == f.(checksum := r.checksum)
  {
    f.(checksum := Checksum(Encode(f.(checksum := 0))))
  }

  /** A sealed footer passes the checksum test, whatever its checksum field held before. */
  lemma SealedChecks(f: Footer)
    ensures ChecksumValid(Encode(Seal(f)))
  {
    var z := f.(checksum := 0);
    assert Encode(z) == Head(f) + Zeros(4) + Tail(f);
    SealedRecordChecks(Head(f), Tail(f));
  }

  /** The creation stamp as line 342 writes it: `(uint32_t)(time(NULL) + SECONDS_OFFSET)`. */
  function TimeStampAsWritten(now: int): U32
  {
    (now + SECONDS_OFFSET) % TWO_32
  }

  /** The creation stamp the format defines: seconds since 2000-01-01 00:00:00 UTC, in 32 bits. */
  function TimeStamp(now: int): (r: U32)
    ensures SECONDS_OFFSET <= now < SECONDS_OFFSET + TWO_32 ==> r == now - SECONDS_OFFSET
  {
    (now - SECONDS_OFFSET) % TWO_32
  }

  /** At midnight 2000-01-01 UTC the format's stamp is 0, but line 342 stores 1893369600. */
  lemma TimeStampAtEpoch2000()
    ensures TimeStamp(SECONDS_OFFSET) == 0
    ensures TimeStampAsWritten(SECONDS_OFFSET) == 1893369600
  {
  }

  /** Line 342 is off by twice the 1970-2000 offset at every instant. */
  lemma TimeStampSkew(now: int)
    ensures TimeStampAsWritten(now) == (TimeStamp(now) + 2 * SECONDS_OFFSET) % TWO_32
  {
    var t := now - SECONDS_OFFSET;
    DivModUnique(t, TWO_32, t / TWO_32, t % TWO_32);
    var q := t / TWO_32;
    DivModUnique(now + SECONDS_OFFSET, TWO_32, q + (t % TWO_32 + 2 * SECONDS_OFFSET) / TWO_32,
                 (t % TWO_32 + 2 * SECONDS_OFFSET) % TWO_32);
  }

  /** The footer `vhd_footer_make` leaves after `vhd_chs` has settled the size (lines 338-352):
      the fixed tags, the type and data offset, both sizes equal to the settled size, the geometry
      of that size, the identifier, and a checksum over the rest. Saved state and reserved bytes are
      whatever the struct held before. */
  function BuildFooter(prev: Footer, size: Int64, diskType: U32, dataOffset: U64, now: int, id: Bytes16)
    : (r: Footer)
    ensures r.cookie == COOKIE && r.creatorApp == CREATOR_APP && r.creatorOs == CREATOR_OS
    ensures r.creatorVer == CREATOR_VERSION
    ensures r.features == FEATURES_RESERVED && r.version == VERSION_1
    ensures r.originalSize == r.currentSize == Unsigned64(size)
    ensures size >= 0 ==> r.currentSize == size
    ensures r.dataOffset == dataOffset && r.diskType == diskType && r.id == id
    ensures r.geometry == Geometry(Sectors(size))
    ensures r.timeStamp == TimeStamp(now)
    ensures r.savedState == prev.savedState && r.reserved == prev.reserved
  {
    Seal(prev.(geometry := Geometry(Sectors(size)), cookie := COOKIE, features := FEATURES_RESERVED,
               dataOffset := dataOffset, version := VERSION_1, timeStamp := TimeStamp(now),
               creatorApp := CREATOR_APP, creatorVer := CREATOR_VERSION, creatorOs := CREATOR_OS,
               originalSize := Unsigned64(size), currentSize := Unsigned64(size),
               diskType := diskType, id := id))
  }

  /** The footer `vhd_footer_make` builds carries a valid checksum. */
  lemma BuiltFooterChecks(prev: Footer, size: Int64, diskType: U32, dataOffset: U64, now: int, id: Bytes16)
    ensures ChecksumValid(Encode(BuildFooter(prev, size, diskType, dataOffset, now, id)))
  {
    SealedChecks(prev.(geometry := Geometry(Sectors(size)), cookie := COOKIE, features := FEATURES_RESERVED,
                       dataOffset := dataOffset, version := VERSION_1, timeStamp := TimeStamp(now),
                       creatorApp := CREATOR_APP, creatorVer := CREATOR_VERSION, creatorOs := CREATOR_OS,
                       originalSize := Unsigned64(size), currentSize := Unsigned64(size),
                       diskType := diskType, id := id));
  }

  /** What `vhd_verify` accepts (vhdtool.c:225-227), on the 512 bytes read: the "conectix" cookie
      and the big-endian fixed disk type. */
  predicate IsFixedFooter(b: seq<Byte>)
    requires |b| == FOOTER_SIZE
  {
    b[0..8] == COOKIE && b[60..64] == Be32(TYPE_FIXED)
  }

  /** The test on the bytes is the test on the decoded fields. */
  lemma FixedFooterDecoded(b: seq<Byte>)
    requires |b| == FOOTER_SIZE
    ensures IsFixedFooter(b) <==> Decode(b).cookie == COOKIE && Decode(b).diskType == TYPE_FIXED
  {
    Be32Inverse(b[60..64]);
    Be32RoundTrip(TYPE_FIXED);
  }

  /** A built footer is recognised by `vhd_verify` exactly when its type is fixed. */
  lemma BuiltFooterVerifies(prev: Footer, size: Int64, diskType: U32, dataOffset: U64, now: int, id: Bytes16)
    ensures IsFixedFooter(Encode(BuildFooter(prev, size, diskType, dataOffset, now, id)))
      <==> diskType == TYPE_FIXED
  {
    var f := BuildFooter(prev, size, diskType, dataOffset, now, id);
    EncodeSlices(f);
    Be32RoundTrip(TYPE_FIXED);
    Be32RoundTrip(diskType);
  }
}
