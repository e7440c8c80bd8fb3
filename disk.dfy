/** The image file as this model sees it: a byte string, written at positions the way `lseek`
    followed by `write` does (a write past the end leaves a hole that reads as zeros). */
module Disk {
  import opened Ints
  import opened Bytes

  function Max(a: nat, b: nat): nat { if a < b then b else a }

  /** The file after writing `data` at byte `off`. */
  function WriteAt(file: seq<Byte>, off: nat, data: seq<Byte>): (r: seq<Byte>)
    ensures |r| == Max(|file|, off + |data|)
    ensures forall i :: 0 <= i < |r| ==>
      r[i] == if off <= i < off + |data| then data[i - off] else if i < |file| then file[i] else 0
  {
    seq(Max(|file|, off + |data|),
        i requires 0 <= i => if off <= i < off + |data| then data[i - off] else if i < |file| then file[i] else 0)
  }

  /** A write at the end of the file appends; one beyond it leaves a zero-filled hole. */
  lemma WriteBeyondEnd(file: seq<Byte>, off: nat, data: seq<Byte>)
    requires off >= |file|
    ensures WriteAt(file, off, data) == file + Zeros(off - |file|) + data
  {
  }

  /** Two adjacent writes are one write of the concatenation. */
  lemma WriteAdjacent(file: seq<Byte>, off: nat, a: seq<Byte>, b: seq<Byte>)
    ensures WriteAt(WriteAt(file, off, a), off + |a|, b) == WriteAt(file, off, a + b)
  {
  }

  /** Writing bytes into a region that already holds zeros past the data. */
  lemma WriteOverZeros(size: nat, footer: seq<Byte>, data: seq<Byte>)
    requires |data| <= size
    ensures WriteAt(Zeros(size) + footer, 0, data) == data + Zeros(size - |data|) + footer
  {
  }
}
