/** Big-endian field encoding (the `htobe*`/`be*toh` helpers, vhdtool.c:28-33) and the byte-sum
    checksum of `vhd_checksum` (vhdtool.c:280-283). */
module Bytes {
  import opened Ints

  type Bytes2 = s: seq<Byte> | |s| == 2 witness [0, 0]
  type Bytes4 = s: seq<Byte> | |s| == 4 witness [0, 0, 0, 0]
  type Bytes8 = s: seq<Byte> | |s| == 8 witness [0, 0, 0, 0, 0, 0, 0, 0]
  type Bytes16 = s: seq<Byte> | |s| == 16 witness [0, 0, 0, 0, 0, 0, 0, 0, 0, 0, 0, 0, 0, 0, 0, 0]

  function Zeros(n: nat): (r: seq<Byte>)
    ensures |r| == n && forall i :: 0 <= i < n ==> r[i] == 0
  {
    seq(n, _ => 0)
  }

  function Pow256(w: nat): (r: nat)
    ensures r >= 1
  {
    if w == 0 then 1 else 256 * Pow256(w - 1)
  }

  /** The `w` low-order bytes of `n`, most significant first. */
  function ToBE(n: nat, w: nat): (r: seq<Byte>)
    ensures |r| == w
  {
    if w == 0 then [] else ToBE(n / 256, w - 1) + [n % 256]
  }

  /** The unsigned value of a big-endian byte string. */
  function FromBE(s: seq<Byte>): (r: nat)
    ensures r < Pow256(|s|)
  {
    if s == [] then 0
    else
      var init := FromBE(s[..|s| - 1]);
      assert init * 256 <= (Pow256(|s| - 1) - 1) * 256 by {
        MulMonotone(init, Pow256(|s| - 1) - 1, 256);
      }
      init * 256 + s[|s| - 1]
  }

  /** Decoding an encoding keeps the `w` low-order bytes of the value. */
  lemma {:induction false} FromToBE(n: nat, w: nat)
    ensures FromBE(ToBE(n, w)) == n % Pow256(w)
  {
    if w > 0 {
      var s := ToBE(n, w);
      assert s[..w - 1] == ToBE(n / 256, w - 1);
      FromToBE(n / 256, w - 1);
      var p := Pow256(w - 1);
      var q := n / 256;
      ByteThenDigit(n, p);
      assert (q % p) * 256 + n % 256 < 256 * p by {
        MulMonotone(q % p, p - 1, 256);
      }
      DivModUnique(n, 256 * p, q / p, (q % p) * 256 + n % 256);
    }
  }

  /** Encoding a decoded byte string gives it back. */
  lemma {:induction false} ToFromBE(s: seq<Byte>)
    ensures ToBE(FromBE(s), |s|) == s
  {
    if s != [] {
      var k := |s| - 1;
      var v := FromBE(s[..k]);
      DivModUnique(v * 256 + s[k], 256, v, s[k]);
      ToFromBE(s[..k]);
      assert s == s[..k] + [s[k]];
    }
  }

  lemma Pow256Values()
    ensures Pow256(1) == TWO_8 && Pow256(2) == TWO_16
    ensures Pow256(4) == TWO_32 && Pow256(8) == TWO_64
  {
    assert Pow256(2) == 256 * Pow256(1);
    assert Pow256(4) == 256 * 256 * Pow256(2);
    assert Pow256(8) == 256 * 256 * 256 * 256 * Pow256(4);
  }

  /** `htobe16`, `htobe32`, `htobe64` as the bytes they put in memory. */
  function Be16(n: U16): Bytes2 { ToBE(n, 2) }
  function Be32(n: U32): Bytes4 { ToBE(n, 4) }
  function Be64(n: U64): Bytes8 { ToBE(n, 8) }

  /** `be16toh`, `be32toh`, `be64toh` of a field read from memory. */
  function FromBe16(b: Bytes2): (r: U16)
  {
    Pow256Values(); FromBE(b)
  }
  function FromBe32(b: Bytes4): (r: U32)
  {
    Pow256Values(); FromBE(b)
  }
  function FromBe64(b: Bytes8): (r: U64)
  {
    Pow256Values(); FromBE(b)
  }

  lemma Be16RoundTrip(n: U16)
    ensures FromBe16(Be16(n)) == n
  {
    Pow256Values();
    FromToBE(n, 2);
    DivModUnique(n, Pow256(2), 0, n);
  }
  lemma Be32RoundTrip(n: U32)
    ensures FromBe32(Be32(n)) == n
  {
    Pow256Values();
    FromToBE(n, 4);
    DivModUnique(n, Pow256(4), 0, n);
  }
  lemma Be64RoundTrip(n: U64)
    ensures FromBe64(Be64(n)) == n
  {
    Pow256Values();
    FromToBE(n, 8);
    DivModUnique(n, Pow256(8), 0, n);
  }
  lemma Be32Inverse(b: Bytes4)
    ensures Be32(FromBe32(b)) == b
  {
    ToFromBE(b);
  }
  lemma Be16Inverse(b: Bytes2)
    ensures Be16(FromBe16(b)) == b
  {
    ToFromBE(b);
  }
  lemma Be64Inverse(b: Bytes8)
    ensures Be64(FromBe64(b)) == b
  {
    ToFromBE(b);
  }

  /** The unbounded sum of the bytes of `s`. */
  function ByteSum(s: seq<Byte>): (r: nat)
    ensures r <= 255 * |s|
  {
    if s == [] then 0 else ByteSum(s[..|s| - 1]) + s[|s| - 1]
  }

  lemma {:induction false} ByteSumAppend(a: seq<Byte>, b: seq<Byte>)
    ensures ByteSum(a + b) == ByteSum(a) + ByteSum(b)
  {
    if b != [] {
      var k := |b| - 1;
      assert (a + b)[..|a + b| - 1] == a + b[..k];
      ByteSumAppend(a, b[..k]);
    } else {
      assert a + b == a;
    }
  }

  /** The checksum rule: the one's complement of the 32-bit wrapping byte sum. */
  function Checksum(s: seq<Byte>): U32
  {
    MAX_U32 - ByteSum(s) % TWO_32
  }

  /** `vhd_checksum` (vhdtool.c:280-283): a `uint32_t` accumulator that wraps, then `~`. */
  method ComputeChecksum(data: seq<Byte>) returns (csum: U32)
    ensures csum == Checksum(data)
    ensures |data| <= 0x100_0000 ==> csum == MAX_U32 - ByteSum(data)
  {
    var acc: U32 := 0;
    var i := 0;
    while i < |data|
      invariant 0 <= i <= |data|
      invariant acc == ByteSum(data[..i]) % TWO_32
    {
      assert data[..i + 1][..i] == data[..i];
      AddMod(ByteSum(data[..i]), data[i], TWO_32);
      acc := (acc + data[i]) % TWO_32;
      i := i + 1;
    }
    assert data[..i] == data;
    csum := MAX_U32 - acc;
  }

  /** Clearing a field and recomputing the checksum over the whole record. */
  ghost predicate ChecksumHolds(record: seq<Byte>, at: nat)
    requires at + 4 <= |record|
  {
    FromBE(record[at..at + 4]) == Checksum(record[..at] + Zeros(4) + record[at + 4..])
  }

  /** A record sealed with the checksum of its zero-checksum image passes the check. */
  lemma {:induction false} SealedRecordChecks(head: seq<Byte>, tail: seq<Byte>)
    ensures ChecksumHolds(head + Be32(Checksum(head + Zeros(4) + tail)) + tail, |head|)
  {
    var c := Checksum(head + Zeros(4) + tail);
    var r := head + Be32(c) + tail;
    assert r[|head|..|head| + 4] == Be32(c);
    assert r[..|head|] == head;
    assert r[|head| + 4..] == tail;
    Be32RoundTrip(c);
  }
}
