/** Option, and the text types every other module shares. */
module Base {

  datatype Option<+T> = None | Some(value: T)

  /** A raised exception is a value here: `Raised` carries no result. */
  datatype Outcome<+T> = Done(value: T) | Raised

  type Byte = x: int | 0 <= x < 0x100
  type Unit16 = x: int | 0 <= x < 0x1_0000
  type Unit32 = x: int | 0 <= x < 0x1_0000_0000

  /** Indicator values that are not lengths. */
  const SQL_NULL_DATA := -1
  const SQL_NTS := -3
  const SQL_NO_TOTAL := -4

  function Min(a: int, b: int): int { if a < b then a else b }

  function Max(a: int, b: int): int { if a < b then b else a }

  function Fill<T>(n: nat, filler: T): seq<T> { seq(n, _ => filler) }

  /** std::copy into the buffer: in bounds, and nothing else is touched. */
  method CopyInto<T>(data: array<T>, base: nat, v: seq<T>)
    requires base + |v| <= data.Length
    modifies data
    ensures data[..] == old(data[..base]) + v + old(data[base + |v|..])
  {
    for j := 0 to |v|
      invariant data[..base] == old(data[..base]) && data[base..base + j] == v[..j]
      invariant data[base + j..] == old(data[base + j..])
    {
      data[base + j] := v[j];
    }
    assert data[..] == data[..base] + data[base..base + |v|] + data[base + |v|..];
  }

  lemma ProductNat(x: nat, y: nat)
    ensures x * y >= 0
  {
  }

  /** Slot i of `n` slots of a fixed width lies inside them, and ends where the next one starts. */
  lemma SlotFits(i: nat, n: nat, width: nat)
    requires i < n
    ensures 0 <= i * width <= i * width + width == (i + 1) * width <= n * width
  {
    if i + 1 < n {
      SlotFits(i, n - 1, width);
    } else {
      ProductNat(i, width);
    }
  }

  /** The text a C reader sees: everything before the first zero unit. */
  function CStr<T(==)>(s: seq<T>, nul: T): (r: seq<T>)
    ensures r <= s && nul !in r
    ensures |r| < |s| ==> s[|r|] == nul
  {
    if s == [] || s[0] == nul then [] else [s[0]] + CStr(s[1..], nul)
  }

  /** `CStr` is the only prefix that is free of zeros and is followed by a zero or the end. */
  lemma {:induction false} CStrUnique<T>(s: seq<T>, nul: T, r: seq<T>)
    requires r <= s && nul !in r && (|r| < |s| ==> s[|r|] == nul)
    ensures CStr(s, nul) == r
  {
    var c := CStr(s, nul);
    if s != [] && s[0] != nul && r != [] {
      CStrUnique(s[1..], nul, r[1..]);
    }
  }
}

/**
 Code points and the three encoding forms, stated from the standards and not from the
 code: the grammar of RFC 3629 section 4, the bit tables of RFC 3629 section 3, and the
 surrogate pairs of RFC 2781 section 2.
 */
module Unicode {
  import opened Base

  predicate IsValidCodePoint(cp: int) {
    0 <= cp <= 0x10FFFF && !(0xD800 <= cp <= 0xDFFF)
  }

  /** A Unicode scalar value: exactly the code points that are valid. */
  type Scalar = cp: int | 0 <= cp < 0xD800 || 0xDFFF < cp <= 0x10FFFF

  // ---------------------------------------------------------------- UTF-8

  predicate Tail(b: Byte) { 0x80 <= b <= 0xBF }

  /** The production UTF8-char of RFC 3629 section 4. */
  predicate Utf8Char(s: seq<Byte>) {
    || (|s| == 1 && s[0] <= 0x7F)
    || (|s| == 2 && 0xC2 <= s[0] <= 0xDF && Tail(s[1]))
    || (|s| == 3 && Tail(s[2])
        && (|| (s[0] == 0xE0 && 0xA0 <= s[1] <= 0xBF)
            || (0xE1 <= s[0] <= 0xEC && Tail(s[1]))
            || (s[0] == 0xED && 0x80 <= s[1] <= 0x9F)
            || (0xEE <= s[0] <= 0xEF && Tail(s[1]))))
    || (|s| == 4 && Tail(s[2]) && Tail(s[3])
        && (|| (s[0] == 0xF0 && 0x90 <= s[1] <= 0xBF)
            || (0xF1 <= s[0] <= 0xF3 && Tail(s[1]))
            || (s[0] == 0xF4 && 0x80 <= s[1] <= 0x8F)))
  }

  /** The production UTF8-octets of RFC 3629 section 4: any number of UTF8-char. */
  ghost predicate Utf8Octets(s: seq<Byte>)
    decreases |s|
  {
    s == [] || exists k :: 1 <= k <= |s| && Utf8Char(s[..k]) && Utf8Octets(s[k..])
  }

  /** The number held by the x bits of the table in RFC 3629 section 3, two to four octets. */
  function Bits2(b0: int, b1: int): int { (b0 - 0xC0) * 0x40 + (b1 - 0x80) }

  function Bits3(b0: int, b1: int, b2: int): int {
    (b0 - 0xE0) * 0x1000 + (b1 - 0x80) * 0x40 + (b2 - 0x80)
  }

  function Bits4(b0: int, b1: int, b2: int, b3: int): int {
    (b0 - 0xF0) * 0x4_0000 + (b1 - 0x80) * 0x1000 + (b2 - 0x80) * 0x40 + (b3 - 0x80)
  }

  function Payload(s: seq<Byte>): int
    requires Utf8Char(s)
  {
    match |s|
    case 1 => s[0]
    case 2 => Bits2(s[0], s[1])
    case 3 => Bits3(s[0], s[1], s[2])
    case _ => Bits4(s[0], s[1], s[2], s[3])
  }

  predicate SpellsUtf8(s: seq<Byte>, cp: int) {
    Utf8Char(s) && Payload(s) == cp
  }

  // ---------------------------------------------------------------- UTF-16

  predicate High(u: Unit16) { 0xD800 <= u <= 0xDBFF }

  predicate Low(u: Unit16) { 0xDC00 <= u <= 0xDFFF }

  /** The unit at i is no surrogate, or stands in its place in a pair. */
  predicate PairedAt(s: seq<Unit16>, i: int)
    requires 0 <= i < |s|
  {
    && (High(s[i]) ==> i + 1 < |s| && Low(s[i + 1]))
    && (Low(s[i]) ==> 0 < i && High(s[i - 1]))
  }

  /** Every high surrogate is followed by a low one and every low one follows a high one. */
  predicate Paired(s: seq<Unit16>) {
    forall i :: 0 <= i < |s| ==> PairedAt(s, i)
  }

  /** The number that W1 and W2 of RFC 2781 section 2.1 hold in their two ten-bit halves. */
  function JoinPair(high: int, low: int): int {
    0x1_0000 + (high - 0xD800) * 0x400 + (low - 0xDC00)
  }

  /** RFC 2781 section 2.1: one unit, or the pair holding U - 0x10000 in two ten-bit halves. */
  predicate SpellsUtf16(s: seq<Unit16>, cp: int) {
    || (|s| == 1 && !High(s[0]) && !Low(s[0]) && cp == s[0])
    || (|s| == 2 && High(s[0]) && Low(s[1])
        && cp == JoinPair(s[0], s[1]))
  }

  // ---------------------------------------------------------------- encoders, code by code

  /** The four six-bit groups of a number, from their values to the shifts and masks. */
  lemma Sextets(a: nat, b: nat, c: nat, d: nat, cp: int)
    requires a < 8 && b < 0x40 && c < 0x40 && d < 0x40
    requires cp == a * 0x4_0000 + b * 0x1000 + c * 0x40 + d
    ensures cp / 0x4_0000 == a && cp / 0x1000 == a * 0x40 + b && cp / 0x1000 % 0x40 == b
    ensures cp / 0x40 % 0x40 == c && cp % 0x40 == d
  {
    assert cp / 0x40 == a * 0x1000 + b * 0x40 + c;
    var top := cp / 0x1000;
    assert top == a * 0x40 + b;
    assert top % 0x40 == b;
  }

  /** Every number is made of its six-bit groups. */
  lemma SextetsOf(cp: nat)
    requires cp < 0x20_0000
    ensures cp == cp / 0x4_0000 * 0x4_0000 + cp / 0x1000 % 0x40 * 0x1000 + cp / 0x40 % 0x40 * 0x40 + cp % 0x40
    ensures cp / 0x1000 == cp / 0x4_0000 * 0x40 + cp / 0x1000 % 0x40
  {
    Sextets(cp / 0x40 / 0x40 / 0x40, cp / 0x40 / 0x40 % 0x40, cp / 0x40 % 0x40, cp % 0x40, cp);
  }

  /** A continuation octet: the bits 10 and the low six bits of x. */
  function Continuation(x: nat): (b: Byte)
    ensures Tail(b)
  {
    0x80 + x % 0x40
  }

  function Encode2(cp: int): (s: seq<Byte>)
    requires 0x80 <= cp < 0x800
    ensures SpellsUtf8(s, cp)
  {
    var lead: Byte := 0xC0 + cp / 0x40;
    [lead, Continuation(cp)]
  }

  function Encode3(cp: int): (s: seq<Byte>)
    requires 0x800 <= cp < 0x1_0000 && IsValidCodePoint(cp)
    ensures SpellsUtf8(s, cp)
  {
    SextetsOf(cp);
    var lead: Byte := 0xE0 + cp / 0x1000;
    [lead, Continuation(cp / 0x40), Continuation(cp)]
  }

  function Encode4(cp: int): (s: seq<Byte>)
    requires 0x1_0000 <= cp <= 0x10_FFFF
    ensures SpellsUtf8(s, cp)
  {
    SextetsOf(cp);
    var lead: Byte := 0xF0 + cp / 0x4_0000;
    [lead, Continuation(cp / 0x1000), Continuation(cp / 0x40), Continuation(cp)]
  }

  function EncodeUtf8(cp: Scalar): (s: seq<Byte>)
    ensures SpellsUtf8(s, cp)
  {
    if cp < 0x80 then var b: Byte := cp; [b]
    else if cp < 0x800 then Encode2(cp)
    else if cp < 0x1_0000 then Encode3(cp)
    else Encode4(cp)
  }

  function EncodeUtf16(cp: Scalar): (s: seq<Unit16>)
    ensures SpellsUtf16(s, cp)
  {
    if cp < 0x1_0000 then var u: Unit16 := cp; [u]
    else
      var high: Unit16 := 0xD800 + (cp - 0x1_0000) / 0x400;
      var low: Unit16 := 0xDC00 + (cp - 0x1_0000) % 0x400;
      [high, low]
  }

  /** The unit is the code point itself. */
  function EncodeUtf32(cp: Scalar): (s: seq<Unit32>)
    ensures |s| == 1 && s[0] == cp
  {
    var u: Unit32 := cp;
    [u]
  }

  /** Behind its mark, an octet's low bits are what it is above the mark. */
  lemma LowBits(b: int, mark: int, size: nat)
    requires (size == 0x40 && mark == 0x80) || (size == 0x20 && mark == 0xC0) || (size == 0x10 && mark == 0xE0) || (size == 8 && mark == 0xF0)
    requires mark <= b < mark + size
    ensures b % size == b - mark
  {
  }

  /** The number is the low bits of the octets, and its size fixes how many octets there are. */
  lemma Utf8Bits(cp: Scalar, s: seq<Byte>)
    requires s == EncodeUtf8(cp)
    ensures |s| == if cp < 0x80 then 1 else if cp < 0x800 then 2 else if cp < 0x1_0000 then 3 else 4
    ensures |s| == 1 ==> cp == s[0]
    ensures |s| == 2 ==> cp == s[0] as int % 0x20 * 0x40 + s[1] as int % 0x40
    ensures |s| == 3 ==> cp == s[0] as int % 0x10 * 0x1000 + s[1] as int % 0x40 * 0x40 + s[2] as int % 0x40
    ensures |s| == 4 ==> cp == s[0] as int % 8 * 0x4_0000 + s[1] as int % 0x40 * 0x1000 + s[2] as int % 0x40 * 0x40 + s[3] as int % 0x40
  {
    forall i | 1 <= i < |s|
      ensures s[i] as int % 0x40 == s[i] - 0x80
    {
      LowBits(s[i], 0x80, 0x40);
    }
    if |s| == 2 {
      LowBits(s[0], 0xC0, 0x20);
    } else if |s| == 3 {
      LowBits(s[0], 0xE0, 0x10);
    } else if |s| == 4 {
      LowBits(s[0], 0xF0, 8);
    }
  }

  /** Below U+10000 the unit is the number; above, the two ten-bit halves of what exceeds it. */
  lemma Utf16Bits(cp: Scalar)
    ensures var s := EncodeUtf16(cp);
      && (cp < 0x1_0000 ==> |s| == 1 && s[0] == cp)
      && (cp >= 0x1_0000 ==>
        && |s| == 2 && s[0] / 0x400 == 0x36 && s[1] / 0x400 == 0x37
        && cp == 0x1_0000 + s[0] as int % 0x400 * 0x400 + s[1] as int % 0x400)
  {
  }

  lemma LowSextet(c: nat, d: nat, cp: int)
    requires d < 0x40 && cp == c * 0x40 + d
    ensures cp / 0x40 == c && cp % 0x40 == d
  {
  }

  lemma Unique2(s: seq<Byte>, cp: int)
    requires |s| == 2 && SpellsUtf8(s, cp)
    ensures 0x80 <= cp < 0x800 && s == Encode2(cp)
  {
    LowSextet(s[0] - 0xC0, s[1] - 0x80, cp);
  }

  lemma Unique3(s: seq<Byte>, cp: int)
    requires |s| == 3 && SpellsUtf8(s, cp)
    ensures 0x800 <= cp < 0x1_0000 && IsValidCodePoint(cp) && s == Encode3(cp)
  {
    Sextets(0, s[0] - 0xE0, s[1] - 0x80, s[2] - 0x80, cp);
    assert Encode3(cp)[0] == s[0] && Encode3(cp)[1] == s[1] && Encode3(cp)[2] == s[2];
  }

  lemma Range4(b0: int, b1: int, b2: int, b3: int)
    requires 0x80 <= b1 <= 0xBF && 0x80 <= b2 <= 0xBF && 0x80 <= b3 <= 0xBF
    requires 0xF0 <= b0 <= 0xF4 && (b0 == 0xF0 ==> 0x90 <= b1) && (b0 == 0xF4 ==> b1 <= 0x8F)
    ensures 0x1_0000 <= Bits4(b0, b1, b2, b3) <= 0x10_FFFF
  {
  }

  lemma Unique4(s: seq<Byte>, cp: int)
    requires |s| == 4 && SpellsUtf8(s, cp)
    ensures 0x1_0000 <= cp <= 0x10_FFFF && s == Encode4(cp)
  {
    var a, b, c, d := s[0] - 0xF0, s[1] - 0x80, s[2] - 0x80, s[3] - 0x80;
    Range4(s[0], s[1], s[2], s[3]);
    Sextets(a, b, c, d, cp);
    assert Encode4(cp)[0] == s[0] && Encode4(cp)[1] == s[1];
    assert Encode4(cp)[2] == s[2] && Encode4(cp)[3] == s[3];
  }

  /** What spells a code point in UTF-8 spells a valid one, and is the only thing that does. */
  lemma Utf8Unique(s: seq<Byte>, cp: int)
    requires SpellsUtf8(s, cp)
    ensures IsValidCodePoint(cp) && s == EncodeUtf8(cp)
  {
    if |s| == 1 {
      assert s == [s[0]];
    } else if |s| == 2 {
      Unique2(s, cp);
    } else if |s| == 3 {
      Unique3(s, cp);
    } else {
      Unique4(s, cp);
    }
  }

  lemma Utf16Unique(s: seq<Unit16>, cp: int)
    requires SpellsUtf16(s, cp)
    ensures IsValidCodePoint(cp) && s == EncodeUtf16(cp)
  {
  }
}
