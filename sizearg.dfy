/** Command-line size arguments (`parse_size_arg`, vhdtool.c:464-482) and the default disk type of
    the two commands (vhdtool.c:438, 457). */
module SizeArg {
  import opened Ints
  import opened VhdFooter

  /** `isspace` in the C locale: space, and tab through carriage return. */
  predicate IsSpace(c: char)
  {
    c == ' ' || '\t' <= c <= '\r'
  }

  predicate IsDigit(c: char)
  {
    '0' <= c <= '9'
  }

  function DigitValue(c: char): (r: nat)
    requires IsDigit(c)
    ensures r < 10
  {
    (c as int) - ('0' as int)
  }

  function DigitChar(d: nat): (r: char)
    requires d < 10
    ensures IsDigit(r) && DigitValue(r) == d
  {
    ('0' as int + d) as char
  }

  /** The first position at or after `i` that is not white space. */
  function SkipSpaces(s: string, i: nat): (r: nat)
    requires i <= |s|
    ensures i <= r <= |s|
    ensures forall k :: i <= k < r ==> IsSpace(s[k])
    ensures r < |s| ==> !IsSpace(s[r])
    decreases |s| - i
  {
    if i < |s| && IsSpace(s[i]) then SkipSpaces(s, i + 1) else i
  }

  /** The end of the run of decimal digits that starts at `i`. */
  function DigitsEnd(s: string, i: nat): (r: nat)
    requires i <= |s|
    ensures i <= r <= |s|
    ensures forall k :: i <= k < r ==> IsDigit(s[k])
    ensures r < |s| ==> !IsDigit(s[r])
    decreases |s| - i
  {
    if i < |s| && IsDigit(s[i]) then DigitsEnd(s, i + 1) else i
  }

  /** The value of a run of decimal digits, most significant first, without any bound. */
  function DigitsValue(s: string): nat
    requires forall k :: 0 <= k < |s| ==> IsDigit(s[k])
  {
    if s == [] then 0 else DigitsValue(s[..|s| - 1]) * 10 + DigitValue(s[|s| - 1])
  }

  /** The value `_strtoui64` returns and the position it leaves `end` at. */
  datatype Conversion = Conversion(value: U64, end: nat)

  /** `_strtoui64(opt, &end, 10)`: white space, an optional sign, decimal digits. Without digits
      nothing is converted and `end` is the start of the string; a value beyond 64 bits saturates
      at ULLONG_MAX; a minus sign negates modulo 2^64. */
  function StrToU64(s: string): (r: Conversion)
    ensures r.end <= |s|
    ensures r.end == 0 ==> r.value == 0
  {
    var i := SkipSpaces(s, 0);
    var neg := i < |s| && s[i] == '-';
    var j := if i < |s| && (s[i] == '+' || s[i] == '-') then i + 1 else i;
    var k := DigitsEnd(s, j);
    if k == j then Conversion(0, 0)
    else
      var v := DigitsValue(s[j..k]);
      if v > MAX_U64 then Conversion(MAX_U64, k)
      else if neg then Conversion((TWO_64 - v) % TWO_64, k)
      else Conversion(v, k)
  }

  /** What a size modifier multiplies the value by: each of the fall-through cases T, G, M, K
      shifts left by ten more bits, S shifts by nine (512-byte sectors), B and the end of the string
      leave bytes. */
  datatype Modifier = Times(factor: nat) | Unknown

  function ModifierOf(c: char): (r: Modifier)
    ensures r.Times? ==> r.factor in {1, 0x200, 0x400, 0x10_0000, 0x4000_0000, 0x100_0000_0000}
  {
    match c
    case 't' => Times(0x100_0000_0000) case 'T' => Times(0x100_0000_0000)
    case 'g' => Times(0x4000_0000) case 'G' => Times(0x4000_0000)
    case 'm' => Times(0x10_0000) case 'M' => Times(0x10_0000)
    case 'k' => Times(0x400) case 'K' => Times(0x400)
    case '\0' => Times(1) case 'b' => Times(1) case 'B' => Times(1)
    case 's' => Times(0x200) case 'S' => Times(0x200)
    case _ => Unknown
  }

  datatype SizeArgResult = Size(bytes: Int64) | BadModifier(modifier: char)

  /** `parse_size_arg`: convert the number, look at the character after it, and shift the
      `off64_t` value left; shifted-out bits are lost. */
  function ParseSizeArg(opt: string): SizeArgResult
  {
    var conv := StrToU64(opt);
    Scale(conv.value, if conv.end < |opt| then opt[conv.end] else '\0')
  }

  /** The `switch` on the character after the number. */
  function Scale(value: U64, t: char): SizeArgResult
  {
    match ModifierOf(t)
    case Unknown => BadModifier(t)
    case Times(factor) => Size(Signed64(value * factor))
  }

  /** The decimal digits of `v`, most significant first, without leading zeros. */
  function DecimalText(v: nat): (r: string)
    ensures |r| > 0
    ensures forall k :: 0 <= k < |r| ==> IsDigit(r[k])
  {
    if v < 10 then [DigitChar(v)] else DecimalText(v / 10) + [DigitChar(v % 10)]
  }

  lemma {:induction false} DecimalValue(v: nat)
    ensures DigitsValue(DecimalText(v)) == v
  {
    if v >= 10 {
      var s := DecimalText(v);
      assert s[..|s| - 1] == DecimalText(v / 10);
      DecimalValue(v / 10);
    }
  }

  /** A digit run ends at the first non-digit. */
  lemma {:induction false} DigitsEndAt(s: string, i: nat, j: nat)
    requires i <= j <= |s|
    requires forall k :: i <= k < j ==> IsDigit(s[k])
    requires j < |s| ==> !IsDigit(s[j])
    ensures DigitsEnd(s, i) == j
    decreases j - i
  {
    if i < j {
      DigitsEndAt(s, i + 1, j);
    }
  }

  /** `_strtoui64` reads back the decimal text of any 64-bit value, and stops at the first
      character after it. */
  lemma DecimalRoundTrip(v: U64, rest: string)
    requires rest == [] || !IsDigit(rest[0])
    ensures StrToU64(DecimalText(v) + rest) == Conversion(v, |DecimalText(v)|)
  {
    var t := DecimalText(v);
    var s := t + rest;
    assert SkipSpaces(s, 0) == 0;
    DigitsEndAt(s, 0, |t|);
    assert s[0..|t|] == t;
    DecimalValue(v);
  }

  /** A number followed by a modifier: the value shifted by the modifier's bits, wrapped to
      `off64_t`; any other character after the digits is refused and named. Only the first
      character after the digits is looked at, so whatever follows it is ignored. */
  lemma ParseSizeArgSpec(v: U64, c: char, rest: string)
    requires !IsDigit(c)
    ensures ModifierOf(c).Times? ==>
      ParseSizeArg(DecimalText(v) + [c] + rest) == Size(Signed64(v * ModifierOf(c).factor))
    ensures ModifierOf(c).Unknown? ==> ParseSizeArg(DecimalText(v) + [c] + rest) == BadModifier(c)
    ensures ParseSizeArg(DecimalText(v)) == Size(Signed64(v))
  {
    var t := DecimalText(v);
    DecimalRoundTrip(v, [c] + rest);
    assert t + [c] + rest == t + ([c] + rest);
    assert (t + [c] + rest)[|t|] == c;
    assert ParseSizeArg(t + [c] + rest) == Scale(v, c);
    DecimalRoundTrip(v, []);
    assert t + [] == t;
    assert ParseSizeArg(t) == Scale(v, '\0');
  }

  /** "10G" is 10 GiB, and so is "10GB": the character after the modifier is not looked at. */
  lemma TenGigabytes()
    ensures ParseSizeArg("10G") == Size(10_737_418_240)
    ensures ParseSizeArg("10GB") == Size(10_737_418_240)
  {
    assert DigitChar(1) == '1' && DigitChar(0) == '0';
    assert DecimalText(10) == "10";
    ParseSizeArgSpec(10, 'G', []);
    assert DecimalText(10) + ['G'] + [] == "10G";
    ParseSizeArgSpec(10, 'G', "B");
    assert DecimalText(10) + ['G'] + "B" == "10GB";
    assert ModifierOf('G') == Times(0x4000_0000);
    assert 10 * 0x4000_0000 == 10_737_418_240;
  }

  /** The disk type a command uses: the one asked for, else dynamic when a block size was given
      and fixed otherwise (vhdtool.c:438, 457). */
  function DefaultType(requested: U32, blockSize: Int64): (r: U32)
    ensures requested != 0 ==> r == requested
    ensures requested == 0 ==> (r == TYPE_DYNAMIC <==> blockSize != 0)
    ensures requested == 0 ==> (r == TYPE_FIXED <==> blockSize == 0)
  {
    if requested != 0 then requested
    else if blockSize != 0 then TYPE_DYNAMIC
    else TYPE_FIXED
  }
}
