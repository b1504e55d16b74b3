/**
 The conversions between narrow and wide text. A cursor the source advances by reference is
 an index that is passed in and handed back, and a string it pushes into is an out-parameter
 that extends the one passed in. A raised std::range_error is `None`.
 */
module Codec {
  import opened Base
  import opened Unicode
  import opened PrefixCodes

  // ---------------------------------------------------------------- the three forms are prefix codes

  lemma Utf8Free()
    ensures PrefixFree(EncodeUtf8)
  {
    forall a: Scalar, b: Scalar | EncodeUtf8(a) <= EncodeUtf8(b)
      ensures a == b
    {
      assert EncodeUtf8(a)[0] == EncodeUtf8(b)[0];
      assert EncodeUtf8(a) == EncodeUtf8(b);
      assert Payload(EncodeUtf8(a)) == Payload(EncodeUtf8(b));
    }
  }

  lemma Utf16Free()
    ensures PrefixFree(EncodeUtf16)
  {
    forall a: Scalar, b: Scalar | EncodeUtf16(a) <= EncodeUtf16(b)
      ensures a == b
    {
      assert EncodeUtf16(a)[0] == EncodeUtf16(b)[0];
      assert EncodeUtf16(a) == EncodeUtf16(b);
    }
  }

  lemma Utf32Free()
    ensures PrefixFree(EncodeUtf32)
  {
    forall a: Scalar, b: Scalar | EncodeUtf32(a) <= EncodeUtf32(b)
      ensures a == b
    {
      assert EncodeUtf32(a)[0] == EncodeUtf32(b)[0];
    }
  }

  // ---------------------------------------------------------------- the accepted sets are the standards' sets

  /** UTF8-octets of RFC 3629 section 4 are exactly the encodings of scalar sequences. */
  lemma {:induction false} Utf8Exact(s: seq<Byte>)
    ensures Utf8Octets(s) <==> Spellable(EncodeUtf8, s)
    decreases |s|
  {
    Utf8Free();
    EmptySpellable(EncodeUtf8);
    if s != [] && Utf8Octets(s) {
      var k :| 1 <= k <= |s| && Utf8Char(s[..k]) && Utf8Octets(s[k..]);
      Utf8Unique(s[..k], Payload(s[..k]));
      PeelOne(EncodeUtf8, s, k, Payload(s[..k]));
      Utf8Exact(s[k..]);
    }
    if s != [] && Spellable(EncodeUtf8, s) {
      var k, cp := FirstOf(EncodeUtf8, s);
      PeelOne(EncodeUtf8, s, k, cp);
      Utf8Exact(s[k..]);
    }
  }

  /** Correctly paired strings are exactly the encodings of scalar sequences. */
  lemma {:induction false} Utf16Exact(s: seq<Unit16>)
    ensures Paired(s) <==> Spellable(EncodeUtf16, s)
    decreases |s|
  {
    Utf16Free();
    EmptySpellable(EncodeUtf16);
    if s != [] && Paired(s) {
      assert PairedAt(s, 0);
      var k := if High(s[0]) then 2 else 1;
      var cp: int := if High(s[0]) then JoinPair(s[0], s[1]) else s[0] as int;
      Utf16Unique(s[..k], cp);
      PeelOne(EncodeUtf16, s, k, cp);
      PairedTail(s, k);
      Utf16Exact(s[k..]);
    }
    if s != [] && Spellable(EncodeUtf16, s) {
      var k, cp := FirstOf(EncodeUtf16, s);
      PeelOne(EncodeUtf16, s, k, cp);
      Utf16Exact(s[k..]);
      assert SpellsUtf16(s[..k], cp);
      PairedTail(s, k);
    }
  }

  /** Cutting a well-formed character off the front keeps the pairing, both ways. */
  lemma PairedTail(s: seq<Unit16>, k: nat)
    requires (k == 1 && |s| >= 1 && !High(s[0]) && !Low(s[0])) || (k == 2 && |s| >= 2 && High(s[0]) && Low(s[1]))
    ensures Paired(s) <==> Paired(s[k..])
  {
    var t := s[k..];
    if Paired(t) {
      forall i | 0 <= i < |s|
        ensures PairedAt(s, i)
      {
        if k <= i {
          assert PairedAt(t, i - k);
        }
      }
    }
    if Paired(s) {
      forall i | 0 <= i < |t|
        ensures PairedAt(t, i)
      {
        assert PairedAt(s, k + i);
      }
    }
  }

  /** A UTF-32 string spells text exactly when every unit is a valid code point. */
  lemma {:induction false} Utf32Exact(s: seq<Unit32>)
    ensures (forall u | u in s :: IsValidCodePoint(u)) <==> Spellable(EncodeUtf32, s)
    decreases |s|
  {
    Utf32Free();
    EmptySpellable(EncodeUtf32);
    if s != [] {
      assert s == [s[0]] + s[1..];
      Utf32Exact(s[1..]);
      if IsValidCodePoint(s[0]) {
        PeelOne(EncodeUtf32, s, 1, s[0]);
      } else {
        forall cp: Scalar
          ensures !(EncodeUtf32(cp) <= s)
        {
          assert EncodeUtf32(cp)[0] == cp;
        }
        Stuck(EncodeUtf32, s);
      }
    }
  }

  /** The units are the code points, number by number. */
  ghost predicate Numbers(units: seq<Unit32>, cps: seq<Scalar>) {
    |units| == |cps| && forall i :: 0 <= i < |cps| ==> units[i] == cps[i]
  }

  /** Spelled in UTF-32 a text is the list of its code points, and nothing else spells it. */
  lemma {:induction false} Utf32IsNumbers(cps: seq<Scalar>, units: seq<Unit32>)
    ensures Spell(EncodeUtf32, cps) == units <==> Numbers(units, cps)
  {
    if cps != [] && units != [] {
      Utf32IsNumbers(cps[1..], units[1..]);
      assert units == [units[0]] + units[1..];
      assert Spell(EncodeUtf32, cps) == EncodeUtf32(cps[0]) + Spell(EncodeUtf32, cps[1..]);
      if Numbers(units, cps) {
        assert EncodeUtf32(cps[0]) == [units[0]];
      }
    }
  }

  // ---------------------------------------------------------------- one code point

  method AppendAsUtf8(cp: Scalar, out: seq<Byte>) returns (grown: seq<Byte>)
    ensures out <= grown && SpellsUtf8(grown[|out|..], cp)
    ensures grown == out + EncodeUtf8(cp)
  {
    if cp < 0x80 {
      var b: Byte := cp;
      grown := out + [b];
    } else if cp < 0x800 {
      grown := out + Encode2(cp);
    } else if cp < 0x1_0000 {
      grown := out + Encode3(cp);
    } else {
      grown := out + Encode4(cp);
    }
  }

  method AppendAsUtf16(cp: Scalar, out: seq<Unit16>) returns (grown: seq<Unit16>)
    ensures out <= grown && SpellsUtf16(grown[|out|..], cp)
    ensures grown == out + EncodeUtf16(cp)
  {
    if cp < 0x1_0000 {
      var u: Unit16 := cp;
      grown := out + [u];
    } else {
      var c := cp - 0x1_0000;
      var high: Unit16 := 0xD800 + c / 0x400;
      var low: Unit16 := 0xDC00 + c % 0x400;
      grown := out + [high];
      grown := grown + [low];
      assert grown == out + [high, low];
      assert grown[|out|..] == [high, low] == EncodeUtf16(cp);
    }
  }

  method AppendAsUtf32(cp: Scalar, out: seq<Unit32>) returns (grown: seq<Unit32>)
    ensures out <= grown && |grown| == |out| + 1 && grown[|out|] == cp
    ensures grown == out + EncodeUtf32(cp)
  {
    var u: Unit32 := cp;
    grown := out + [u];
  }

  /** The code point as the loop builds it, six bits an octet. */
  function Gather(start: int, tail: seq<Byte>): int {
    if tail == [] then start
    else Gather(start, tail[..|tail| - 1]) * 0x40 + tail[|tail| - 1] as int % 0x40
  }

  /** How many octets follow a lead octet, when it can lead at all. */
  function ExtraOf(lead: Byte): Option<nat> {
    if lead < 0x80 then Some(0)
    else if 0xC2 <= lead <= 0xDF then Some(1)
    else if 0xE0 <= lead <= 0xEF then Some(2)
    else if 0xF0 <= lead <= 0xF4 then Some(3)
    else None
  }

  /** The lead octet fixes the length, so one candidate decides for every length. */
  lemma NoCharacter(s: seq<Byte>, beg: nat)
    requires beg < |s|
    requires ExtraOf(s[beg]).Some? && beg + 1 + ExtraOf(s[beg]).value <= |s| ==>
      !Utf8Char(s[beg..beg + 1 + ExtraOf(s[beg]).value])
    ensures forall k | beg < k <= |s| :: !Utf8Char(s[beg..k])
  {
    forall k | beg < k <= |s| && Utf8Char(s[beg..k])
      ensures ExtraOf(s[beg]) == Some(k - beg - 1)
    {
      assert s[beg..k][0] == s[beg];
    }
  }

  function LeadMark(extra: int): int {
    if extra == 1 then 0xC0 else if extra == 2 then 0xE0 else 0xF0
  }

  lemma GatherIs(start: int, t: seq<Byte>)
    requires 1 <= |t| <= 3
    requires forall j | 0 <= j < |t| :: Tail(t[j])
    ensures |t| == 1 ==> Gather(start, t) == start * 0x40 + (t[0] as int - 0x80)
    ensures |t| == 2 ==> Gather(start, t) == start * 0x1000 + (t[0] as int - 0x80) * 0x40 + (t[1] as int - 0x80)
    ensures |t| == 3 ==> Gather(start, t) == start * 0x4_0000 + (t[0] as int - 0x80) * 0x1000 + (t[1] as int - 0x80) * 0x40 + (t[2] as int - 0x80)
  {
    if |t| > 1 {
      GatherIs(start, t[..|t| - 1]);
    }
    assert t[|t| - 1] as int % 0x40 == t[|t| - 1] as int - 0x80;
  }

  /** What the checks after the loop decide: the grammar's narrower ranges for the second octet. */
  lemma ChecksAreGrammar(chunk: seq<Byte>, extra: int, acc: int)
    requires 1 <= extra <= 3 && |chunk| == extra + 1
    requires ExtraOf(chunk[0]) == Some(extra)
    requires forall j | 1 <= j <= extra :: Tail(chunk[j])
    requires acc == Gather(chunk[0] as int - LeadMark(extra), chunk[1..])
    ensures Utf8Char(chunk) <==>
      !(extra == 1 && acc < 0x80) && !(extra == 2 && acc < 0x800) && !(extra == 3 && acc < 0x1_0000) && IsValidCodePoint(acc)
    ensures Utf8Char(chunk) ==> Payload(chunk) == acc
  {
    GatherIs(chunk[0] as int - LeadMark(extra), chunk[1..]);
  }

  /** The loop over the continuation octets; the first octet that is none of them ends it. */
  method ReadContinuations(s: seq<Byte>, beg: nat, extra: nat, start: int) returns (acc: Option<int>, next: nat)
    requires beg + extra <= |s|
    ensures acc.Some? <==> forall j | beg <= j < beg + extra :: Tail(s[j])
    ensures acc.Some? ==> next == beg + extra && acc.value == Gather(start, s[beg..next])
  {
    var cp := start;
    next := beg;
    for i := 0 to extra
      invariant next == beg + i
      invariant forall j | beg <= j < next :: Tail(s[j])
      invariant cp == Gather(start, s[beg..next])
    {
      var byte := s[next];
      next := next + 1;
      if byte / 0x40 != 2 {
        assert !Tail(s[next - 1]);
        return None, next;
      }
      assert s[beg..next][..i] == s[beg..next - 1];
      cp := cp * 0x40 + byte as int % 0x40;
    }
    acc := Some(cp);
  }

  lemma TailsOf(s: seq<Byte>, beg: nat, extra: nat)
    requires beg + 1 + extra <= |s| && ExtraOf(s[beg]) == Some(extra) && Utf8Char(s[beg..beg + 1 + extra])
    ensures forall j | beg + 1 <= j < beg + 1 + extra :: Tail(s[j])
  {
    forall j | beg + 1 <= j < beg + 1 + extra
      ensures Tail(s[j])
    {
      assert s[j] == s[beg..beg + 1 + extra][j - beg];
    }
  }

  /** Reads one code point: the one octet sequence that starts at `beg`, or nothing if none does. */
  method NextUtf8CodePoint(s: seq<Byte>, beg: nat) returns (cp: Option<int>, next: nat)
    requires beg < |s|
    ensures cp.Some? ==> beg < next <= |s| && SpellsUtf8(s[beg..next], cp.value)
    ensures cp.None? ==> forall k | beg < k <= |s| :: !Utf8Char(s[beg..k])
  {
    var lead := s[beg];
    next := beg + 1;
    if lead < 0x80 {
      return Some(lead), next;
    }
    var extra, start: int;
    if 0xC2 <= lead <= 0xDF {
      extra, start := 1, lead as int - 0xC0;
    } else if 0xE0 <= lead <= 0xEF {
      extra, start := 2, lead as int - 0xE0;
    } else if 0xF0 <= lead <= 0xF4 {
      extra, start := 3, lead as int - 0xF0;
    } else {
      NoCharacter(s, beg);
      return None, next;
    }
    if |s| - next < extra {
      NoCharacter(s, beg);
      return None, next;
    }
    cp, next := ReadContinuations(s, next, extra, start);
    if cp.None? {
      if Utf8Char(s[beg..beg + 1 + extra]) {
        TailsOf(s, beg, extra);
        assert false;
      }
      NoCharacter(s, beg);
      return;
    }
    ghost var ok := CheckedChunk(s, beg, extra, cp.value);
    var acc := cp.value;
    if (extra == 1 && acc < 0x80) || (extra == 2 && acc < 0x800) || (extra == 3 && acc < 0x1_0000) || !IsValidCodePoint(acc) {
      NoCharacter(s, beg);
      return None, next;
    }
  }

  /** `ChecksAreGrammar` for the octets at `beg`. */
  lemma CheckedChunk(s: seq<Byte>, beg: nat, extra: nat, acc: int) returns (ok: bool)
    requires 1 <= extra <= 3 && beg + 1 + extra <= |s| && ExtraOf(s[beg]) == Some(extra)
    requires forall j | beg + 1 <= j < beg + 1 + extra :: Tail(s[j])
    requires acc == Gather(s[beg] as int - LeadMark(extra), s[beg + 1..beg + 1 + extra])
    ensures ok == (!(extra == 1 && acc < 0x80) && !(extra == 2 && acc < 0x800) && !(extra == 3 && acc < 0x1_0000) && IsValidCodePoint(acc))
    ensures ok <==> SpellsUtf8(s[beg..beg + 1 + extra], acc)
    ensures ok <==> Utf8Char(s[beg..beg + 1 + extra])
  {
    var chunk := s[beg..beg + 1 + extra];
    assert chunk[1..] == s[beg + 1..beg + 1 + extra];
    ChecksAreGrammar(chunk, extra, acc);
    ok := Utf8Char(chunk);
  }

  method NextUtf16CodePoint(s: seq<Unit16>, beg: nat) returns (cp: Option<int>, next: nat)
    requires beg < |s|
    ensures cp.Some? ==> beg < next <= |s| && SpellsUtf16(s[beg..next], cp.value)
    ensures cp.None? ==> forall k, c | beg < k <= |s| :: !SpellsUtf16(s[beg..k], c)
  {
    var unit := s[beg];
    next := beg + 1;
    if unit < 0xD800 || unit > 0xDFFF {
      return Some(unit), next;
    }
    assert Two: forall k, c | beg < k <= |s| && SpellsUtf16(s[beg..k], c) :: k == beg + 2 && High(unit) && Low(s[beg + 1]) by {
      forall k, c | beg < k <= |s| && SpellsUtf16(s[beg..k], c)
        ensures k == beg + 2 && High(unit) && Low(s[beg + 1])
      {
        assert s[beg..k][0] == unit;
      }
    }
    if unit >= 0xDC00 || next == |s| {
      return None, next;
    }
    var trail := s[next];
    if trail < 0xDC00 || trail > 0xDFFF {
      return None, next;
    }
    next := next + 1;
    cp := Some(0x1_0000 + (unit as int - 0xD800) * 0x400 + (trail as int - 0xDC00));
  }

  method NextUtf32CodePoint(s: seq<Unit32>, beg: nat) returns (cp: Option<int>, next: nat)
    requires beg < |s|
    ensures cp.Some? <==> 0 <= s[beg] < 0xD800 || 0xE000 <= s[beg] < 0x11_0000
    ensures cp.Some? ==> next == beg + 1 && cp.value == s[beg] && s[beg..next] == EncodeUtf32(cp.value)
    ensures cp.None? ==> forall c: Scalar :: !(EncodeUtf32(c) <= s[beg..])
  {
    var unit := s[beg];
    next := beg + 1;
    if !IsValidCodePoint(unit) {
      assert forall c: Scalar :: EncodeUtf32(c)[0] != s[beg..][0];
      return None, next;
    }
    cp := Some(unit);
  }

  // ---------------------------------------------------------------- whole strings

  method ConvertUtf8ToUtf16(s: seq<Byte>) returns (out: Option<seq<Unit16>>)
    ensures out == Transcode(EncodeUtf8, EncodeUtf16, s)
    ensures out.Some? <==> Utf8Octets(s)
  {
    Utf8Free();
    Utf8Exact(s);
    var beg, acc := 0, [];
    ghost var cps: seq<Scalar> := [];
    while beg != |s|
      invariant beg <= |s|
      invariant s[..beg] == Spell(EncodeUtf8, cps) && acc == Spell(EncodeUtf16, cps)
      decreases |s| - beg
    {
      var cp, next := NextUtf8CodePoint(s, beg);
      if cp.None? {
        NoUtf8At(s, beg);
        StopHere(EncodeUtf8, s, beg, cps);
        return None;
      }
      Utf8Unique(s[beg..next], cp.value);
      StepOne(EncodeUtf8, s, beg, next, cps, cp.value);
      StepOut(EncodeUtf16, cps, cp.value);
      acc := AppendAsUtf16(cp.value, acc);
      beg, cps := next, cps + [cp.value];
    }
    assert s[..beg] == s;
    TranscodeIs(EncodeUtf8, EncodeUtf16, cps);
    out := Some(acc);
  }

  method ConvertUtf8ToUtf32(s: seq<Byte>) returns (out: Option<seq<Unit32>>)
    ensures out == Transcode(EncodeUtf8, EncodeUtf32, s)
    ensures out.Some? <==> Utf8Octets(s)
    ensures out.Some? ==> exists cps :: Spell(EncodeUtf8, cps) == s && Numbers(out.value, cps)
  {
    Utf8Free();
    Utf8Exact(s);
    var beg, acc := 0, [];
    ghost var cps: seq<Scalar> := [];
    while beg != |s|
      invariant beg <= |s|
      invariant s[..beg] == Spell(EncodeUtf8, cps) && acc == Spell(EncodeUtf32, cps)
      decreases |s| - beg
    {
      var cp, next := NextUtf8CodePoint(s, beg);
      if cp.None? {
        NoUtf8At(s, beg);
        StopHere(EncodeUtf8, s, beg, cps);
        return None;
      }
      Utf8Unique(s[beg..next], cp.value);
      StepOne(EncodeUtf8, s, beg, next, cps, cp.value);
      StepOut(EncodeUtf32, cps, cp.value);
      acc := AppendAsUtf32(cp.value, acc);
      beg, cps := next, cps + [cp.value];
    }
    assert s[..beg] == s;
    TranscodeIs(EncodeUtf8, EncodeUtf32, cps);
    Utf32IsNumbers(cps, acc);
    out := Some(acc);
  }

  method ConvertUtf16ToUtf8(s: seq<Unit16>) returns (out: Option<seq<Byte>>)
    ensures out == Transcode(EncodeUtf16, EncodeUtf8, s)
    ensures out.Some? <==> Paired(s)
  {
    Utf16Free();
    Utf16Exact(s);
    var beg, acc := 0, [];
    ghost var cps: seq<Scalar> := [];
    while beg != |s|
      invariant beg <= |s|
      invariant s[..beg] == Spell(EncodeUtf16, cps) && acc == Spell(EncodeUtf8, cps)
      decreases |s| - beg
    {
      var cp, next := NextUtf16CodePoint(s, beg);
      if cp.None? {
        NoUtf16At(s, beg);
        StopHere(EncodeUtf16, s, beg, cps);
        return None;
      }
      Utf16Unique(s[beg..next], cp.value);
      StepOne(EncodeUtf16, s, beg, next, cps, cp.value);
      StepOut(EncodeUtf8, cps, cp.value);
      acc := AppendAsUtf8(cp.value, acc);
      beg, cps := next, cps + [cp.value];
    }
    assert s[..beg] == s;
    TranscodeIs(EncodeUtf16, EncodeUtf8, cps);
    out := Some(acc);
  }

  method ConvertUtf32ToUtf8(s: seq<Unit32>) returns (out: Option<seq<Byte>>)
    ensures out == Transcode(EncodeUtf32, EncodeUtf8, s)
    ensures out.Some? <==> forall u | u in s :: IsValidCodePoint(u)
    ensures out.Some? ==> exists cps :: Numbers(s, cps) && Spell(EncodeUtf8, cps) == out.value
  {
    Utf32Free();
    Utf32Exact(s);
    var beg, acc := 0, [];
    ghost var cps: seq<Scalar> := [];
    while beg != |s|
      invariant beg <= |s|
      invariant s[..beg] == Spell(EncodeUtf32, cps) && acc == Spell(EncodeUtf8, cps)
      decreases |s| - beg
    {
      var cp, next := NextUtf32CodePoint(s, beg);
      if cp.None? {
        StopHere(EncodeUtf32, s, beg, cps);
        return None;
      }
      StepOne(EncodeUtf32, s, beg, next, cps, cp.value);
      StepOut(EncodeUtf8, cps, cp.value);
      acc := AppendAsUtf8(cp.value, acc);
      beg, cps := next, cps + [cp.value];
    }
    assert s[..beg] == s;
    TranscodeIs(EncodeUtf32, EncodeUtf8, cps);
    Utf32IsNumbers(cps, s);
    out := Some(acc);
  }

  lemma StepOut<U>(enc: Scalar -> seq<U>, cps: seq<Scalar>, cp: Scalar)
    ensures Spell(enc, cps + [cp]) == Spell(enc, cps) + enc(cp)
  {
    SpellConcat(enc, cps, [cp]);
    SpellOne(enc, cp);
  }

  lemma NoUtf8At(s: seq<Byte>, beg: nat)
    requires beg < |s| && forall k | beg < k <= |s| :: !Utf8Char(s[beg..k])
    ensures forall cp: Scalar :: !(EncodeUtf8(cp) <= s[beg..])
  {
    forall cp: Scalar | EncodeUtf8(cp) <= s[beg..]
      ensures Utf8Char(s[beg..beg + |EncodeUtf8(cp)|])
    {
      assert s[beg..beg + |EncodeUtf8(cp)|] == EncodeUtf8(cp);
    }
  }

  lemma NoUtf16At(s: seq<Unit16>, beg: nat)
    requires beg < |s| && forall k, c | beg < k <= |s| :: !SpellsUtf16(s[beg..k], c)
    ensures forall cp: Scalar :: !(EncodeUtf16(cp) <= s[beg..])
  {
    forall cp: Scalar | EncodeUtf16(cp) <= s[beg..]
      ensures SpellsUtf16(s[beg..beg + |EncodeUtf16(cp)|], cp)
    {
      assert s[beg..beg + |EncodeUtf16(cp)|] == EncodeUtf16(cp);
    }
  }
}
