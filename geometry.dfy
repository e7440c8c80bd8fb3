/** The CHS geometry rule of `vhd_chs` (vhdtool.c:290-332), from the "CHS Calculation" appendix of
    the Virtual Hard Disk Image Format Specification. */
module DiskGeometry {
  import opened Ints

  /** `struct vhd_chs`: cylinders, heads, sectors per track. */
  datatype Chs = Chs(c: U16, h: Byte, s: Byte)

  /** 65535 * 16 * 255: the largest sector count CHS can describe (about 127 GiB). */
  const MAX_SECTORS: nat := 65535 * 16 * 255
  /** 65535 * 16 * 63: from here on the rule uses 255 sectors per track. */
  const S255_FROM: nat := 65535 * 16 * 63

  /** `sectors` at vhdtool.c:294-295: `(uint64_t)(size >> 9)`, clamped. */
  function Sectors(size: Int64): (r: nat)
    ensures r <= MAX_SECTORS
    ensures r < MAX_SECTORS ==> size >= 0 && r == size / 512
    ensures 0 <= size && size / 512 <= MAX_SECTORS ==> r == size / 512
  {
    var raw := (size / 512) % TWO_64;
    if raw > MAX_SECTORS then MAX_SECTORS else raw
  }

  /** One candidate of the cascade: sectors per track, heads, and `cyl_x_heads`. */
  datatype Trial = Trial(s: nat, h: nat, cxh: nat)

  /** Lines 296-304: the breakpoint cascade that picks S and H, with `cyl_x_heads`. */
  function Cascade(sectors: nat): Trial
  {
    if sectors >= S255_FROM then Trial(255, 16, sectors / 255)
    else
      var cxh := sectors / 17;
      // `(uint8_t)((cyl_x_heads + 1023) >> 10)`: the cast keeps the low eight bits
      var h := ((cxh + 1023) / 1024) % 256;
      var t17 := Trial(17, if h < 4 then 4 else h, cxh);
      var t31 := if t17.cxh >= t17.h * 1024 || t17.h > 16 then Trial(31, 16, sectors / 31) else t17;
      if t31.cxh >= t31.h * 1024 then Trial(63, 16, sectors / 63) else t31
  }

  /** The geometry stored in the footer: C = `(uint16_t)(cyl_x_heads / chs.h)` (line 304). */
  function Geometry(sectors: nat): Chs
    requires sectors <= MAX_SECTORS
  {
    var t := Cascade(sectors);
    CascadeShape(sectors);
    Chs((t.cxh / t.h) % TWO_16, t.h, t.s)
  }

  /** The cascade's choices: S is one of 17/31/63/255, H is 16 unless S is 17, H is 4..16 for
      S = 17, and below S = 63 the cylinder count stays under 1024. */
  lemma CascadeShape(sectors: nat)
    ensures var t := Cascade(sectors);
      && (t.s == 17 || t.s == 31 || t.s == 63 || t.s == 255)
      && (t.s != 17 ==> t.h == 16)
      && (t.s == 17 ==> 4 <= t.h <= 16)
      && t.cxh == sectors / t.s
      && (t.s == 17 || t.s == 31 ==> t.cxh < t.h * 1024)
      && (t.s == 63 ==> sectors < S255_FROM)
  {
  }

  /** C = (sectors / S) / H always fits the 16-bit field, so the cast at line 304 loses nothing. */
  lemma CylindersFit(sectors: nat)
    requires sectors <= MAX_SECTORS
    ensures var t := Cascade(sectors); t.h > 0 && t.cxh / t.h < TWO_16
    ensures var t := Cascade(sectors); t.s < 63 ==> t.cxh / t.h < 1024
  {
    var t := Cascade(sectors);
    CascadeShape(sectors);
    if t.s == 255 {
      DivAtMost(sectors, 255, 65535 * 16);
      DivAtMost(t.cxh, 16, 65535);
    } else if t.s == 63 {
      DivAtMost(sectors, 63, 65535 * 16 - 1);
      DivAtMost(t.cxh, 16, 65535);
    } else {
      DivLess(t.cxh, t.h, 1024);
    }
  }

  /** Geometry bounds: S is one of 17/31/63/255, H is 16 unless S is 17, H is 4..16 for S = 17,
      and below S = 63 the cylinder count stays under 1024. */
  lemma GeometryBounds(sectors: nat)
    requires sectors <= MAX_SECTORS
    ensures var g := Geometry(sectors);
      && (g.s == 17 || g.s == 31 || g.s == 63 || g.s == 255)
      && (g.s != 17 ==> g.h == 16)
      && (g.s == 17 ==> 4 <= g.h <= 16)
      && (g.s != 63 && g.s != 255 ==> g.c < 1024)
  {
    CascadeShape(sectors);
    GeometryIsCascade(sectors);
    CylindersFit(sectors);
  }

  /** C is `cyl_x_heads / H` with `cyl_x_heads = sectors / S`: the 16-bit cast truncates nothing. */
  lemma GeometryCylinders(sectors: nat)
    requires sectors <= MAX_SECTORS
    ensures var g := Geometry(sectors); g.s > 0 && g.h > 0 && g.c == (sectors / g.s) / g.h
  {
    CascadeShape(sectors);
    GeometryIsCascade(sectors);
  }

  /** The disk the triple describes is never larger than the sector count it was chosen for. */
  lemma GeometryBelowSize(sectors: nat)
    requires sectors <= MAX_SECTORS
    ensures var g := Geometry(sectors); g.c * g.h * g.s <= sectors
  {
    GeometryCylinders(sectors);
    var g := Geometry(sectors);
    ProductBelow(sectors, g.c, g.h, g.s);
  }

  /** The cast at line 304 is the identity, so the geometry is the cascade's choice as computed. */
  lemma GeometryIsCascade(sectors: nat)
    requires sectors <= MAX_SECTORS
    ensures var t := Cascade(sectors); var g := Geometry(sectors);
      t.h > 0 && g.c == t.cxh / t.h && g.h == t.h && g.s == t.s
  {
    CylindersFit(sectors);
  }

  lemma ProductBelow(n: nat, c: nat, h: nat, s: nat)
    requires s > 0 && h > 0 && c == (n / s) / h
    ensures c * h * s <= n
  {
    var x := n / s;
    assert c * h <= x;
    MulMonotone(c * h, x, s);
    assert x * s <= n;
  }

  /** The size the retry at vhdtool.c:321-322 moves to:
      `round_up(size + 1, min_nz(min_nz(C, H), S) << 9)`. All terms stay far below 2^63 because
      a retry only happens below MAX_SECTORS, so the uint64 arithmetic does not wrap. */
  function RetrySize(size: nat, g: Chs): nat
    requires g.s != 0
  {
    RoundUp(size + 1, MinNz(MinNz(g.c, g.h), g.s) * 512)
  }

  /** Whether the loop at vhdtool.c:309-324 goes round again for this size. */
  predicate Retries(size: Int64, compat: bool)
  {
    var sectors := Sectors(size);
    var g := Geometry(sectors);
    compat && sectors < MAX_SECTORS && g.c * g.h * g.s != sectors
  }

  /** Each retry lands on a larger size that is a whole number of sectors, and so on a larger
      clamped sector count; this is the loop's termination measure. */
  lemma RetryGrows(size: Int64)
    requires Sectors(size) < MAX_SECTORS
    ensures var g := Geometry(Sectors(size));
      g.s != 0
      && RetrySize(size, g) > size
      && RetrySize(size, g) % 512 == 0
      && RetrySize(size, g) < 512 * MAX_SECTORS + 512 * 256
      && Sectors(RetrySize(size, g)) > Sectors(size)
  {
    var sectors := Sectors(size);
    var g := Geometry(sectors);
    GeometryBounds(sectors);
    var m := MinNz(MinNz(g.c, g.h), g.s);
    assert 1 <= m <= 255;
    RoundUpIsLeastMultiple(size + 1, m * 512);
    var r := RetrySize(size, g);
    assert r < size + 1 + 255 * 512 by {
      MulMonotone(m, 255, 512);
    }
    var k := SectorMultiple(r, m);
    assert size / 512 < k by {
      assert 512 * (size / 512) <= size < r;
    }
    assert size < 512 * MAX_SECTORS by {
      DivLess(size, 512, MAX_SECTORS);
      assert size < 512 * (size / 512) + 512;
    }
    DivModUnique(r, 512, k, 0);
  }

  /** A multiple of `m * 512` is a whole number of sectors. */
  lemma SectorMultiple(r: nat, m: nat) returns (k: nat)
    requires m > 0 && r % (m * 512) == 0
    ensures r == k * 512
  {
    var q := r / (m * 512);
    assert r == q * (m * 512);
    k := q * m;
  }

  /** The final size `vhd_chs` leaves behind: with COMPAT_SIZE it re-runs the rule on the grown size
      until the triple is exact or the clamp is reached (the `goto again` loop). */
  function ChsSize(size: Int64, compat: bool): (r: Int64)
    ensures r >= size
    decreases MAX_SECTORS - Sectors(size)
  {
    if Retries(size, compat) then
      RetryGrows(size);
      ChsSize(RetrySize(size, Geometry(Sectors(size))), compat)
    else size
  }

  /** vhd_chs sizing rule: the size is unchanged without COMPAT_SIZE, it stays a whole number of
      sectors, and the loop ends at an exact triple or at the clamp. */
  lemma {:induction false} ChsSizeSpec(size: Int64, compat: bool)
    ensures !compat ==> ChsSize(size, compat) == size
    ensures size % 512 == 0 ==> ChsSize(size, compat) % 512 == 0
    ensures var final := Sectors(ChsSize(size, compat)); var g := Geometry(final);
      !compat || final == MAX_SECTORS || g.c * g.h * g.s == final
    decreases MAX_SECTORS - Sectors(size)
  {
    if Retries(size, compat) {
      RetryGrows(size);
      ChsSizeSpec(RetrySize(size, Geometry(Sectors(size))), compat);
    }
  }

  /** A size whose geometry is already exact is a fixed point of the rule. */
  lemma ExactSizeIsKept(size: Int64, compat: bool)
    requires var g := Geometry(Sectors(size)); g.c * g.h * g.s == Sectors(size)
    ensures ChsSize(size, compat) == size
  {
  }
}
