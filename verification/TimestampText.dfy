/**
 The printer of a timestamp with an offset, and a reader that takes its text apart again.
 Struct fields are 16 and 32 bits wide and may hold anything a driver left in them.
 */
module TimestampText {
  import opened Base

  const TWO_64: int := 0x1_0000_0000_0000_0000
  const BILLION: int := 1_000_000_000

  type Short = x: int | -0x8000 <= x < 0x8000
  type Int32 = x: int | -0x8000_0000 <= x < 0x8000_0000
  type Long = x: int | -0x8000_0000_0000_0000 <= x < 0x8000_0000_0000_0000

  datatype Timestamp = Timestamp(
    year: Short, month: Short, day: Short, hour: Short, min: Short, sec: Short, fract: Int32)

  datatype TimestampOffset = TimestampOffset(stamp: Timestamp, offsetHour: Short, offsetMinute: Short)

  function Abs(x: int): (r: int)
    ensures r >= 0 && (r == x || r == -x)
  {
    if x < 0 then -x else x
  }

  // ---------------------------------------------------------------- the printer

  function DigitChar(d: nat): (c: char)
    requires d < 10
    ensures c == "0123456789"[d]
  {
    ('0' as int + d) as char
  }

  /** std::to_string on an unsigned number. */
  function Digits(n: nat): string {
    if n < 10 then [DigitChar(n)] else Digits(n / 10) + [DigitChar(n % 10)]
  }

  function Zeros(n: nat): (s: string)
    ensures |s| == n && forall c | c in s :: c == '0'
  {
    seq(n, _ => '0')
  }

  /** The unsigned copy the digits come from: negation modulo 2^64, never of a signed value. */
  function Magnitude(value: Long): (m: nat)
    ensures m == Abs(value)
  {
    if value < 0 then (0 - value % TWO_64) % TWO_64 else value % TWO_64
  }

  /** The sign, then the digits with zeros put in front of them up to the width. */
  function Pad(sign: string, digits: string, width: nat): string {
    if |sign| + |digits| < width then sign + (Zeros(width - |sign| - |digits|) + digits)
    else sign + digits
  }

  function ZeroPadded(value: Long, width: nat): string {
    Pad(if value < 0 then "-" else "", Digits(Magnitude(value)), width)
  }

  function Pow10(n: nat): (p: nat)
    ensures p > 0
  {
    if n == 0 then 1 else 10 * Pow10(n - 1)
  }

  /** Division of the source language, which rounds toward zero. */
  function Quotient(a: int, b: int): int
    requires b > 0
  {
    if a < 0 then -(-a / b) else a / b
  }

  lemma DivShrinks(a: nat, b: nat)
    requires b > 0
    ensures a / b <= a
  {
    var q := a / b;
    assert a == q * b + a % b;
    ProductNat(q, b - 1);
    assert q * b == q * (b - 1) + q;
  }

  lemma QuotientInRange(a: Int32, b: nat)
    requires b > 0
    ensures -0x8000_0000 <= Quotient(a, b) <= 0x8000_0000
  {
    DivShrinks(Abs(a), b);
  }

  function FractionText(fract: Int32, scale: int): string {
    if 0 < scale <= 9 then
      QuotientInRange(fract, Pow10(9 - scale));
      "." + ZeroPadded(Quotient(fract, Pow10(9 - scale)), scale)
    else ""
  }

  function BehindUtc(v: TimestampOffset): bool { v.offsetHour < 0 || v.offsetMinute < 0 }

  function OffsetText(v: TimestampOffset): string {
    (if BehindUtc(v) then " -" else " +") + (ZeroPadded(Abs(v.offsetHour), 2) + (":" + ZeroPadded(Abs(v.offsetMinute), 2)))
  }

  /** The text, from its last part to its first so that a reader can follow it. */
  function StampText(v: TimestampOffset, scale: int): string {
    var s := v.stamp;
    ZeroPadded(s.year, 4) + ("-" + (ZeroPadded(s.month, 2) + ("-" + (ZeroPadded(s.day, 2)
    + (" " + (ZeroPadded(s.hour, 2) + (":" + (ZeroPadded(s.min, 2) + (":" + (ZeroPadded(s.sec, 2)
    + (FractionText(s.fract, scale) + OffsetText(v))))))))))))
  }

  /** One `result +=`, keeping track of the text still to come. */
  method Append(result: string, part: string, ghost rest: string, ghost whole: string) returns (r: string)
    requires result + (part + rest) == whole
    ensures r == result + part && r + rest == whole
  {
    r := result + part;
    assert r + rest == result + (part + rest);
  }

  lemma PowersOfTen(n: nat)
    requires n < 10
    ensures Pow10(n) == [1, 10, 100, 1_000, 10_000, 100_000, 1_000_000, 10_000_000, 100_000_000, BILLION][n]
  {
    if n > 0 {
      PowersOfTen(n - 1);
    }
  }

  method FractionDivisor(scale: int) returns (divisor: nat)
    requires 0 < scale <= 9
    ensures divisor == Pow10(9 - scale)
    ensures divisor == [BILLION, 100_000_000, 10_000_000, 1_000_000, 100_000, 10_000, 1_000, 100, 10, 1][scale]
  {
    PowersOfTen(9 - scale);
    divisor := 1;
    for i := scale to 9
      invariant divisor == Pow10(i - scale)
    {
      divisor := divisor * 10;
    }
  }

  /** The source's own order: one string grown from left to right. */
  method TimestampOffsetAsString(v: TimestampOffset, scale: int) returns (result: string)
    ensures result == StampText(v, scale)
    ensures DateInRange(v.stamp) && TimeInRange(v.stamp) ==>
      && |result| > 19 && result[4] == result[7] == '-' && result[10] == ' ' && result[13] == result[16] == ':'
      && Shows(result, 0, 4, v.stamp.year) && Shows(result, 5, 7, v.stamp.month) && Shows(result, 8, 10, v.stamp.day)
      && Shows(result, 11, 13, v.stamp.hour) && Shows(result, 14, 16, v.stamp.min) && Shows(result, 17, 19, v.stamp.sec)
    ensures DateInRange(v.stamp) && TimeInRange(v.stamp) && ZoneInRange(v) ==>
      var base := if 0 < scale <= 9 then 20 + scale else 19;
      && |result| == base + 7 && result[base] == ' ' && result[base + 4] == ':'
      && (0 < scale <= 9 ==> result[19] == '.' && Shows(result, 20, 20 + scale, v.stamp.fract / Pow10(9 - scale)))
      && result[base + 1] == (if v.offsetHour < 0 || v.offsetMinute < 0 then '-' else '+')
      && Shows(result, base + 2, base + 4, Abs(v.offsetHour)) && Shows(result, base + 5, base + 7, Abs(v.offsetMinute))
  {
    var s := v.stamp;
    ghost var all := StampText(v, scale);
    ghost var t6 := FractionText(s.fract, scale) + OffsetText(v);
    ghost var t5 := ZeroPadded(s.sec, 2) + t6;
    ghost var t4 := ZeroPadded(s.min, 2) + (":" + t5);
    ghost var t3 := ZeroPadded(s.hour, 2) + (":" + t4);
    ghost var t2 := ZeroPadded(s.day, 2) + (" " + t3);
    ghost var t1 := ZeroPadded(s.month, 2) + ("-" + t2);
    result := ZeroPadded(s.year, 4);
    result := Append(result, "-", t1, all);
    result := Append(result, ZeroPadded(s.month, 2), "-" + t2, all);
    result := Append(result, "-", t2, all);
    result := Append(result, ZeroPadded(s.day, 2), " " + t3, all);
    result := Append(result, " ", t3, all);
    result := Append(result, ZeroPadded(s.hour, 2), ":" + t4, all);
    result := Append(result, ":", t4, all);
    result := Append(result, ZeroPadded(s.min, 2), ":" + t5, all);
    result := Append(result, ":", t5, all);
    result := Append(result, ZeroPadded(s.sec, 2), t6, all);
    var fraction := "";
    if 0 < scale <= 9 {
      var divisor := FractionDivisor(scale);
      QuotientInRange(s.fract, divisor);
      fraction := "." + ZeroPadded(Quotient(s.fract, divisor), scale);
    }
    result := Append(result, fraction, OffsetText(v), all);
    result := result + OffsetText(v);
    Layout(v, scale, result);
  }

  // ---------------------------------------------------------------- the reader

  predicate IsDigit(c: char) { '0' <= c <= '9' }

  predicate AllDigits(s: string) { forall c | c in s :: IsDigit(c) }

  /** How many digits the text begins with. */
  function Span(s: string): (n: nat)
    ensures n <= |s|
  {
    if s != "" && IsDigit(s[0]) then 1 + Span(s[1..]) else 0
  }

  function DigitValue(c: char): (d: nat)
    requires IsDigit(c)
    ensures d < 10 && "0123456789"[d] == c
  {
    c as int - '0' as int
  }

  function Value(s: string): nat
    requires AllDigits(s)
  {
    if s == "" then 0
    else Value(s[..|s| - 1]) * 10 + DigitValue(s[|s| - 1])
  }

  lemma {:induction false} SpanIsDigits(s: string)
    ensures AllDigits(s[..Span(s)])
  {
    if s != "" && IsDigit(s[0]) {
      SpanIsDigits(s[1..]);
      assert s[..Span(s)] == [s[0]] + s[1..][..Span(s[1..])];
    }
  }

  /** As many digits as follow, and there must be one. */
  function ReadNat(s: string): Option<(int, string)> {
    SpanIsDigits(s);
    if Span(s) == 0 then None else Some((Value(s[..Span(s)]), s[Span(s)..]))
  }

  /** The same after an optional minus sign. */
  function ReadInt(s: string): Option<(int, string)> {
    if s != "" && s[0] == '-' then
      match ReadNat(s[1..])
      case None => None
      case Some((v, t)) => Some((-v, t))
    else ReadNat(s)
  }

  /** The rest of the text after one expected character. */
  function Expect(s: string, c: char): Option<string> {
    if s != "" && s[0] == c then Some(s[1..]) else None
  }

  /** A number and the character that ends it. */
  function ReadField(s: string, c: char): Option<(int, string)> {
    match ReadInt(s)
    case None => None
    case Some((v, t)) =>
      match Expect(t, c)
      case None => None
      case Some(u) => Some((v, u))
  }

  datatype Reading = Reading(
    year: int, month: int, day: int, hour: int, min: int, sec: int, fraction: string, offsetHour: int, offsetMinute: int)

  /** The digits after a point, if the text goes on with one. */
  function ReadFraction(s: string): (string, string) {
    if s != "" && s[0] == '.' then var n := Span(s[1..]); (s[1..][..n], s[1..][n..]) else ("", s)
  }

  function ReadOffset(s: string): Option<(int, int)> {
    if |s| < 2 || s[0] != ' ' || s[1] !in "+-" then None
    else
      match ReadField(s[2..], ':')
      case None => None
      case Some((h, t)) =>
        match ReadInt(t)
        case Some((m, "")) => Some(if s[1] == '-' then (-h, -m) else (h, m))
        case _ => None
  }

  function ReadStamp(s: string): Option<Reading> {
    match ReadField(s, '-') case None => None case Some((year, s1)) =>
    match ReadField(s1, '-') case None => None case Some((month, s2)) =>
    match ReadField(s2, ' ') case None => None case Some((day, s3)) =>
    match ReadField(s3, ':') case None => None case Some((hour, s4)) =>
    match ReadField(s4, ':') case None => None case Some((min, s5)) =>
    match ReadInt(s5) case None => None case Some((sec, s6)) =>
    var (fraction, s7) := ReadFraction(s6);
    match ReadOffset(s7) case None => None case Some((oh, om)) =>
    Some(Reading(year, month, day, hour, min, sec, fraction, oh, om))
  }

  // ---------------------------------------------------------------- numbers read back

  lemma {:induction false} SpanOf(ds: string, rest: string)
    requires AllDigits(ds) && (rest == "" || !IsDigit(rest[0]))
    ensures Span(ds + rest) == |ds|
  {
    if ds == "" {
      assert ds + rest == rest;
    } else {
      SpanOf(ds[1..], rest);
      assert (ds + rest)[1..] == ds[1..] + rest;
    }
  }

  lemma {:induction false} DigitsRead(n: nat)
    ensures AllDigits(Digits(n)) && Digits(n) != "" && Value(Digits(n)) == n
  {
    if n >= 10 {
      DigitsRead(n / 10);
      assert Digits(n)[..|Digits(n)| - 1] == Digits(n / 10);
    } else {
      assert Digits(n)[..0] == "";
    }
  }

  lemma {:induction false} PaddingIsWorthless(k: nat, ds: string)
    requires AllDigits(ds)
    ensures AllDigits(Zeros(k) + ds) && Value(Zeros(k) + ds) == Value(ds)
    decreases |ds|, k
  {
    var s := Zeros(k) + ds;
    if ds != "" {
      PaddingIsWorthless(k, ds[..|ds| - 1]);
      assert s[..|s| - 1] == Zeros(k) + ds[..|ds| - 1];
    } else if k > 0 {
      PaddingIsWorthless(k - 1, ds);
      assert s[..|s| - 1] == Zeros(k - 1) + ds;
    }
  }

  /** The digits a number prints as have no leading zero, so no shorter text reads the same. */
  lemma {:induction false} DigitsShortest(n: nat, k: nat)
    ensures n < Pow10(k) && k > 0 ==> |Digits(n)| <= k
    ensures n >= Pow10(k) ==> |Digits(n)| > k
  {
    if k > 0 && n >= 10 {
      DigitsShortest(n / 10, k - 1);
    }
  }

  lemma NatReadsBack(body: string, rest: string)
    requires AllDigits(body) && body != "" && (rest == "" || !IsDigit(rest[0]))
    ensures ReadNat(body + rest) == Some((Value(body), rest))
  {
    SpanOf(body, rest);
    assert (body + rest)[..|body|] == body && (body + rest)[|body|..] == rest;
  }

  lemma PadShape(sign: string, digits: string, width: nat) returns (body: string)
    requires AllDigits(digits) && digits != ""
    ensures Pad(sign, digits, width) == sign + body
    ensures AllDigits(body) && body != "" && Value(body) == Value(digits)
    ensures |body| == Max(width - |sign|, |digits|)
  {
    var pad := if |sign| + |digits| < width then width - |sign| - |digits| else 0;
    PaddingIsWorthless(pad, digits);
    body := Zeros(pad) + digits;
    assert pad == 0 ==> body == digits;
  }

  /** What `zero_padded` makes: a sign and digits worth the magnitude. */
  lemma PaddedShape(value: Long, width: nat) returns (body: string)
    ensures ZeroPadded(value, width) == (if value < 0 then "-" else "") + body
    ensures AllDigits(body) && body != "" && Value(body) == Abs(value)
  {
    var m := Magnitude(value);
    DigitsRead(m);
    body := PadShape(if value < 0 then "-" else "", Digits(m), width);
  }

  lemma SignedReadsBack(text: string, negative: bool, body: string, rest: string)
    requires AllDigits(body) && body != "" && (rest == "" || !IsDigit(rest[0]))
    requires text == (if negative then "-" else "") + body
    ensures ReadInt(text + rest) == Some((if negative then 0 - Value(body) as int else Value(body) as int, rest))
  {
    NatReadsBack(body, rest);
    if negative {
      assert (text + rest)[1..] == body + rest;
    } else {
      assert text == body;
      assert IsDigit(body[0]) && (body + rest)[0] == body[0];
    }
  }

  /** `zero_padded` is exact for every long, and reads back whatever follows it, if that is no digit. */
  lemma PaddedReadsBack(value: Long, width: nat, rest: string)
    requires rest == "" || !IsDigit(rest[0])
    ensures ReadInt(ZeroPadded(value, width) + rest) == Some((value as int, rest))
  {
    var body := PaddedShape(value, width);
    SignedReadsBack(ZeroPadded(value, width), value < 0, body, rest);
  }

  /** The text is as wide as asked, or as wide as the number needs: digits are never cut. */
  lemma PaddedWidth(value: Long, width: nat)
    ensures |ZeroPadded(value, width)| == Max(width, (if value < 0 then 1 else 0) + |Digits(Magnitude(value))|)
  {
  }

  lemma FieldReadsBack(value: Long, width: nat, c: char, rest: string)
    requires !IsDigit(c)
    ensures ReadField(ZeroPadded(value, width) + ([c] + rest), c) == Some((value as int, rest))
  {
    PaddedReadsBack(value, width, [c] + rest);
  }

  // ---------------------------------------------------------------- the whole text read back

  /** The fraction the column carries: exactly `scale` digits, holding the billionths cut down to them. */
  ghost predicate IsFraction(fraction: string, fract: int, scale: int) {
    if 0 < scale <= 9 then
      && |fraction| == scale && AllDigits(fraction)
      && Value(fraction) == fract / Pow10(9 - scale)
    else fraction == ""
  }

  lemma {:induction false} Pow10Adds(a: nat, b: nat)
    ensures Pow10(a + b) == Pow10(a) * Pow10(b)
  {
    if a > 0 {
      Pow10Adds(a - 1, b);
      assert Pow10(a + b) == 10 * (Pow10(a - 1) * Pow10(b)) == (10 * Pow10(a - 1)) * Pow10(b);
    }
  }

  lemma QuotientBelow(a: nat, b: nat, c: nat)
    requires b > 0 && a < c * b
    ensures a / b < c
  {
    var q := a / b;
    assert a == q * b + a % b;
    if q >= c {
      ProductNat(q - c, b);
      assert false;
    }
  }

  /** A number below 10^scale pads to exactly `scale` digits. */
  lemma FillsWidth(q: nat, scale: nat)
    requires 0 < scale && q < Pow10(scale) && q <= 0x8000_0000
    ensures var body := ZeroPadded(q, scale); |body| == scale && AllDigits(body) && Value(body) == q
  {
    DigitsShortest(q, scale);
    DigitsRead(q);
    var body := PadShape("", Digits(q), scale);
    assert ZeroPadded(q, scale) == "" + body == body;
  }

  lemma PointReadsBack(body: string, rest: string)
    requires AllDigits(body) && rest != "" && rest[0] == ' '
    ensures ReadFraction(("." + body) + rest) == (body, rest)
  {
    SpanOf(body, rest);
    assert (("." + body) + rest)[1..] == body + rest;
    assert (body + rest)[..|body|] == body && (body + rest)[|body|..] == rest;
  }

  lemma FractionReadsBack(fract: Int32, scale: int, rest: string)
    requires 0 <= fract < BILLION
    requires rest != "" && rest[0] == ' '
    ensures var (fraction, t) := ReadFraction(FractionText(fract, scale) + rest);
      IsFraction(fraction, fract, scale) && t == rest
  {
    if 0 < scale <= 9 {
      var divisor := Pow10(9 - scale);
      var q := fract / divisor;
      Pow10Adds(scale, 9 - scale);
      PowersOfTen(9);
      QuotientBelow(fract, divisor, Pow10(scale));
      DivShrinks(fract, divisor);
      FillsWidth(q, scale);
      PointReadsBack(ZeroPadded(q, scale), rest);
    } else {
      assert "" + rest == rest;
    }
  }

  /** The offset as the text tells it: one sign for both parts. */
  function SignedOffset(v: TimestampOffset): (int, int) {
    if BehindUtc(v) then (-Abs(v.offsetHour), -Abs(v.offsetMinute)) else (Abs(v.offsetHour), Abs(v.offsetMinute))
  }

  lemma PartsReadBack(text: string, sign: char, parts: string, minute: string, h: int, m: int)
    requires text == [' ', sign] + parts && (sign == '-' || sign == '+')
    requires ReadField(parts, ':') == Some((h, minute)) && ReadInt(minute) == Some((m, ""))
    ensures ReadOffset(text) == Some(if sign == '-' then (-h, -m) else (h, m))
  {
    assert text[2..] == parts;
  }

  /** A number at the very end of the text. */
  lemma LastReadsBack(value: Long, width: nat)
    ensures ReadInt(ZeroPadded(value, width)) == Some((value as int, ""))
  {
    PaddedReadsBack(value, width, "");
    assert ZeroPadded(value, width) + "" == ZeroPadded(value, width);
  }

  lemma BothReadBack(text: string, sign: char, h: Long, m: Long, told: (int, int))
    requires text == [' ', sign] + (ZeroPadded(h, 2) + (":" + ZeroPadded(m, 2))) && (sign == '-' || sign == '+')
    requires told == if sign == '-' then (0 - h as int, 0 - m as int) else (h as int, m as int)
    ensures ReadOffset(text) == Some(told)
  {
    HourThenMinute(h, m);
    PartsReadBack(text, sign, ZeroPadded(h, 2) + (":" + ZeroPadded(m, 2)), ZeroPadded(m, 2), h, m);
  }

  lemma OffsetReadsBack(v: TimestampOffset)
    ensures ReadOffset(OffsetText(v)) == Some(SignedOffset(v))
  {
    var text, sign, h, m, told := OffsetShape(v);
    BothReadBack(text, sign, h, m, told);
  }

  lemma OffsetShape(v: TimestampOffset) returns (text: string, sign: char, h: Long, m: Long, told: (int, int))
    ensures text == OffsetText(v) && told == SignedOffset(v)
    ensures text == [' ', sign] + (ZeroPadded(h, 2) + (":" + ZeroPadded(m, 2))) && (sign == '-' || sign == '+')
    ensures told == if sign == '-' then (0 - h as int, 0 - m as int) else (h as int, m as int)
  {
    sign, h, m := if BehindUtc(v) then '-' else '+', Abs(v.offsetHour), Abs(v.offsetMinute);
    text, told := OffsetText(v), SignedOffset(v);
    assert (if BehindUtc(v) then " -" else " +") == [' ', sign];
  }

  lemma HourThenMinute(h: Long, m: Long)
    ensures ReadField(ZeroPadded(h, 2) + (":" + ZeroPadded(m, 2)), ':') == Some((h as int, ZeroPadded(m, 2)))
    ensures ReadInt(ZeroPadded(m, 2)) == Some((m as int, ""))
  {
    FieldReadsBack(h, 2, ':', ZeroPadded(m, 2));
    LastReadsBack(m, 2);
  }

  lemma SignedOffsetIff(v: TimestampOffset)
    ensures SignedOffset(v) == (v.offsetHour as int, v.offsetMinute as int) <==>
      !(v.offsetHour < 0 < v.offsetMinute) && !(v.offsetMinute < 0 < v.offsetHour)
  {
  }

  /** The text keeps the offset exactly when its two parts do not disagree in sign. */
  lemma OffsetKeptIff(v: TimestampOffset, text: string)
    requires text == OffsetText(v)
    ensures ReadOffset(text) == Some((v.offsetHour as int, v.offsetMinute as int)) <==>
      !(v.offsetHour < 0 < v.offsetMinute) && !(v.offsetMinute < 0 < v.offsetHour)
  {
    OffsetReadsBack(v);
    SignedOffsetIff(v);
  }

  /** One hour ahead and thirty minutes behind is told as an hour and thirty minutes behind. */
  lemma OffsetLost(stamp: Timestamp)
    ensures ReadOffset(OffsetText(TimestampOffset(stamp, 1, -30))) == Some((-1, -30))
  {
    OffsetReadsBack(TimestampOffset(stamp, 1, -30));
  }

  /** Reading the text back gives every field, for every struct whose fraction is in range. */
  lemma StampReadsBack(v: TimestampOffset, scale: int)
    requires 0 <= v.stamp.fract < BILLION
    ensures var r := ReadStamp(StampText(v, scale));
      && r.Some?
      && r.value.year == v.stamp.year && r.value.month == v.stamp.month && r.value.day == v.stamp.day
      && r.value.hour == v.stamp.hour && r.value.min == v.stamp.min && r.value.sec == v.stamp.sec
      && IsFraction(r.value.fraction, v.stamp.fract, scale)
      && (r.value.offsetHour, r.value.offsetMinute) == SignedOffset(v)
  {
    var s := v.stamp;
    var t7 := OffsetText(v);
    var t6 := FractionText(s.fract, scale) + t7;
    var t5 := ZeroPadded(s.sec, 2) + t6;
    var t4 := ZeroPadded(s.min, 2) + (":" + t5);
    var t3 := ZeroPadded(s.hour, 2) + (":" + t4);
    var t2 := ZeroPadded(s.day, 2) + (" " + t3);
    var t1 := ZeroPadded(s.month, 2) + ("-" + t2);
    FieldReadsBack(s.year, 4, '-', t1);
    FieldReadsBack(s.month, 2, '-', t2);
    FieldReadsBack(s.day, 2, ' ', t3);
    FieldReadsBack(s.hour, 2, ':', t4);
    FieldReadsBack(s.min, 2, ':', t5);
    PaddedReadsBack(s.sec, 2, t6);
    FractionReadsBack(s.fract, scale, t7);
    OffsetReadsBack(v);
  }

  // ---------------------------------------------------------------- where everything stands

  /** The characters from one position to another are the digits of the number. */
  predicate Shows(text: string, from: nat, to: nat, n: int) {
    from <= to <= |text| && AllDigits(text[from..to]) && Value(text[from..to]) == n
  }

  /** A part of a text, the character that ends it, and what follows. */
  lemma PartStands(text: string, base: nat, part: string, c: char, rest: string)
    requires base <= |text| && text[base..] == part + ([c] + rest)
    ensures var end := base + |part|;
      end < |text| && text[base..end] == part && text[end] == c && text[end + 1..] == rest
  {
    var end := base + |part|;
    assert text[base..][|part|] == c;
    assert text[base..end] == text[base..][..|part|];
    assert text[end + 1..] == text[base..][|part| + 1..];
  }

  /** A number that fits its width, and the character behind it. */
  lemma NumberStands(text: string, base: nat, n: nat, width: nat, part: string, c: char, rest: string)
    requires Fills(part, n, width) && base <= |text| && text[base..] == part + ([c] + rest)
    ensures Shows(text, base, base + width, n) && base + width < |text| && text[base + width] == c && text[base + width + 1..] == rest
  {
    PartStands(text, base, part, c, rest);
  }

  predicate Fills(part: string, n: int, width: nat) { |part| == width && AllDigits(part) && Value(part) == n }

  /** A field in its range, padded. */
  lemma InWidth(n: Short, width: nat) returns (part: string)
    requires (width == 2 && 0 <= n < 100) || (width == 4 && 0 <= n < 10_000)
    ensures part == ZeroPadded(n, width) && Fills(part, n, width)
  {
    PowersOfTen(width);
    FillsWidth(n, width);
    part := ZeroPadded(n, width);
  }

  predicate DateInRange(s: Timestamp) {
    0 <= s.year < 10_000 && 0 <= s.month < 100 && 0 <= s.day < 100
  }

  predicate TimeInRange(s: Timestamp) {
    0 <= s.hour < 100 && 0 <= s.min < 100 && 0 <= s.sec < 100
  }

  predicate ZoneInRange(v: TimestampOffset) {
    0 <= v.stamp.fract < BILLION && -100 < v.offsetHour < 100 && -100 < v.offsetMinute < 100
  }

  /** Four digits, two and two; two, two and two: the separators are where a reader of the format expects them. */
  lemma StampStands(v: TimestampOffset, scale: int, text: string)
    requires text == StampText(v, scale) && DateInRange(v.stamp) && TimeInRange(v.stamp)
    ensures |text| > 19 && text[4] == text[7] == '-' && text[10] == ' ' && text[13] == text[16] == ':'
    ensures Shows(text, 0, 4, v.stamp.year) && Shows(text, 5, 7, v.stamp.month) && Shows(text, 8, 10, v.stamp.day)
    ensures Shows(text, 11, 13, v.stamp.hour) && Shows(text, 14, 16, v.stamp.min) && Shows(text, 17, 19, v.stamp.sec)
    ensures text[19..] == FractionText(v.stamp.fract, scale) + OffsetText(v)
  {
    var s := v.stamp;
    var year := InWidth(s.year, 4);
    var month := InWidth(s.month, 2);
    var day := InWidth(s.day, 2);
    var hour := InWidth(s.hour, 2);
    var min := InWidth(s.min, 2);
    var sec := InWidth(s.sec, 2);
    var zone := FractionText(s.fract, scale) + OffsetText(v);
    var clock := hour + (":" + (min + (":" + (sec + zone))));
    assert text[0..] == year + ("-" + (month + ("-" + (day + (" " + clock)))));
    DateStands(text, s, year, month, day, clock);
    ClockStands(text, s, hour, min, sec, zone);
  }

  lemma DateStands(text: string, s: Timestamp, year: string, month: string, day: string, clock: string)
    requires Fills(year, s.year, 4) && Fills(month, s.month, 2) && Fills(day, s.day, 2)
    requires text[0..] == year + ("-" + (month + ("-" + (day + (" " + clock)))))
    ensures |text| >= 11 && text[4] == text[7] == '-' && text[10] == ' ' && text[11..] == clock
    ensures Shows(text, 0, 4, s.year) && Shows(text, 5, 7, s.month) && Shows(text, 8, 10, s.day)
  {
    NumberStands(text, 0, s.year, 4, year, '-', month + ("-" + (day + (" " + clock))));
    NumberStands(text, 5, s.month, 2, month, '-', day + (" " + clock));
    NumberStands(text, 8, s.day, 2, day, ' ', clock);
  }

  lemma ClockStands(text: string, s: Timestamp, hour: string, min: string, sec: string, zone: string)
    requires Fills(hour, s.hour, 2) && Fills(min, s.min, 2) && Fills(sec, s.sec, 2) && zone != ""
    requires |text| >= 11 && text[11..] == hour + (":" + (min + (":" + (sec + zone))))
    ensures |text| > 19 && text[13] == text[16] == ':' && text[19..] == zone
    ensures Shows(text, 11, 13, s.hour) && Shows(text, 14, 16, s.min) && Shows(text, 17, 19, s.sec)
  {
    NumberStands(text, 11, s.hour, 2, hour, ':', min + (":" + (sec + zone)));
    NumberStands(text, 14, s.min, 2, min, ':', sec + zone);
    assert zone == [zone[0]] + zone[1..];
    NumberStands(text, 17, s.sec, 2, sec, zone[0], zone[1..]);
  }

  /** A fraction in range fills the digits the column carries. */
  lemma FractionFills(fract: Int32, scale: int) returns (part: string)
    requires 0 <= fract < BILLION && 0 < scale <= 9
    ensures FractionText(fract, scale) == "." + part && Fills(part, fract / Pow10(9 - scale), scale)
  {
    var divisor := Pow10(9 - scale);
    var q := fract / divisor;
    Pow10Adds(scale, 9 - scale);
    PowersOfTen(9);
    QuotientBelow(fract, divisor, Pow10(scale));
    DivShrinks(fract, divisor);
    FillsWidth(q, scale);
    part := ZeroPadded(q, scale);
  }

  /** A point and `scale` digits from position 19 on, where there is a fraction. */
  lemma FractionStands(text: string, fract: Int32, scale: int, zone: string) returns (base: nat)
    requires |text| > 19 && text[19..] == FractionText(fract, scale) + zone && 0 <= fract < BILLION
    ensures base == if 0 < scale <= 9 then 20 + scale else 19
    ensures 0 < scale <= 9 ==> text[19] == '.' && Shows(text, 20, 20 + scale, fract / Pow10(9 - scale))
    ensures base <= |text| && text[base..] == zone
  {
    base := 19;
    if 0 < scale <= 9 {
      base := 20 + scale;
      var part := FractionFills(fract, scale);
      PartBehindPoint(text, part, zone);
    }
  }

  lemma PartBehindPoint(text: string, part: string, zone: string)
    requires |text| > 19 && text[19..] == ("." + part) + zone
    ensures text[19] == '.' && 20 + |part| <= |text| && text[20..20 + |part|] == part && text[20 + |part|..] == zone
  {
    var t := text[19..];
    assert t[0] == '.' && t[1..1 + |part|] == part && t[1 + |part|..] == zone;
    assert text[20..20 + |part|] == t[1..1 + |part|] && text[20 + |part|..] == t[1 + |part|..];
  }

  /** Blank, sign, two digits, colon, two digits. */
  lemma OffsetStands(v: TimestampOffset, text: string, base: nat)
    requires base <= |text| && text[base..] == OffsetText(v)
    requires -100 < v.offsetHour < 100 && -100 < v.offsetMinute < 100
    ensures |text| == base + 7 && text[base] == ' ' && text[base + 4] == ':'
    ensures text[base + 1] == if v.offsetHour < 0 || v.offsetMinute < 0 then '-' else '+'
    ensures Shows(text, base + 2, base + 4, Abs(v.offsetHour)) && Shows(text, base + 5, base + 7, Abs(v.offsetMinute))
  {
    var h := InWidth(Abs(v.offsetHour), 2);
    var m := InWidth(Abs(v.offsetMinute), 2);
    var sign := if BehindUtc(v) then " -" else " +";
    assert text[base..] == sign + (h + (":" + m));
    assert text[base..][0] == sign[0] && text[base..][1] == sign[1];
    assert text[base + 2..] == text[base..][2..] == h + (":" + m);
    NumberStands(text, base + 2, Abs(v.offsetHour), 2, h, ':', m);
    assert text[base + 5..base + 7] == text[base + 5..];
  }

  /** The layout of every text whose fields fit the format. */
  lemma Layout(v: TimestampOffset, scale: int, text: string)
    requires text == StampText(v, scale)
    ensures DateInRange(v.stamp) && TimeInRange(v.stamp) ==>
      && |text| > 19 && text[4] == text[7] == '-' && text[10] == ' ' && text[13] == text[16] == ':'
      && Shows(text, 0, 4, v.stamp.year) && Shows(text, 5, 7, v.stamp.month) && Shows(text, 8, 10, v.stamp.day)
      && Shows(text, 11, 13, v.stamp.hour) && Shows(text, 14, 16, v.stamp.min) && Shows(text, 17, 19, v.stamp.sec)
    ensures DateInRange(v.stamp) && TimeInRange(v.stamp) && ZoneInRange(v) ==>
      var base := if 0 < scale <= 9 then 20 + scale else 19;
      && |text| == base + 7 && text[base] == ' ' && text[base + 4] == ':'
      && (0 < scale <= 9 ==> text[19] == '.' && Shows(text, 20, 20 + scale, v.stamp.fract / Pow10(9 - scale)))
      && text[base + 1] == (if v.offsetHour < 0 || v.offsetMinute < 0 then '-' else '+')
      && Shows(text, base + 2, base + 4, Abs(v.offsetHour)) && Shows(text, base + 5, base + 7, Abs(v.offsetMinute))
  {
    if DateInRange(v.stamp) && TimeInRange(v.stamp) {
      StampStands(v, scale, text);
      if ZoneInRange(v) {
        var base := FractionStands(text, v.stamp.fract, scale, OffsetText(v));
        OffsetStands(v, text, base);
      }
    }
  }
}
