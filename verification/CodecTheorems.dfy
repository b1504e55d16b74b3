/** What the conversions promise about whole strings. */
module CodecTheorems {
  import opened Base
  import opened Unicode
  import opened PrefixCodes
  import opened Codec

  // ---------------------------------------------------------------- bits

  /**
   The source writes shifts and masks on char32_t; the functions of this project write
   quotients and remainders. On 32-bit words the two are the same for every code point.
   */
  lemma EncoderBits(cp: bv32)
    requires cp <= 0x10_FFFF
    ensures cp >> 6 == cp / 0x40 && cp >> 12 == cp / 0x1000 && cp >> 18 == cp / 0x4_0000
    ensures 0x80 | (cp & 0x3F) == 0x80 + cp % 0x40
    ensures 0x80 | ((cp >> 6) & 0x3F) == 0x80 + cp / 0x40 % 0x40
    ensures 0x80 | ((cp >> 12) & 0x3F) == 0x80 + cp / 0x1000 % 0x40
    ensures cp < 0x800 ==> 0xC0 | (cp >> 6) == 0xC0 + cp / 0x40
    ensures cp < 0x1_0000 ==> 0xE0 | (cp >> 12) == 0xE0 + cp / 0x1000
    ensures 0xF0 | (cp >> 18) == 0xF0 + cp / 0x4_0000
    ensures cp >= 0x1_0000 ==> 0xD800 + ((cp - 0x1_0000) >> 10) == 0xD800 + (cp - 0x1_0000) / 0x400
    ensures cp >= 0x1_0000 ==> 0xDC00 + ((cp - 0x1_0000) & 0x3FF) == 0xDC00 + (cp - 0x1_0000) % 0x400
  {
  }

  lemma DecoderBits(lead: bv32, byte: bv32, acc: bv32, high: bv32, low: bv32)
    requires lead < 0x100 && byte < 0x100 && acc < 0x8000
    ensures 0xC2 <= lead <= 0xDF ==> lead & 0x1F == lead - 0xC0
    ensures 0xE0 <= lead <= 0xEF ==> lead & 0x0F == lead - 0xE0
    ensures 0xF0 <= lead <= 0xF4 ==> lead & 0x07 == lead - 0xF0
    ensures byte & 0xC0 != 0x80 <==> byte / 0x40 != 2
    ensures (acc << 6) | (byte & 0x3F) == acc * 0x40 + byte % 0x40
    ensures 0xD800 <= high <= 0xDBFF && 0xDC00 <= low <= 0xDFFF ==>
      0x1_0000 + ((high - 0xD800) << 10) + (low - 0xDC00) == 0x1_0000 + (high - 0xD800) * 0x400 + (low - 0xDC00)
  {
  }

  // ---------------------------------------------------------------- plain text

  lemma AsciiIsItself(cp: Scalar)
    requires cp < 0x80
    ensures |EncodeUtf8(cp)| == |EncodeUtf16(cp)| == |EncodeUtf32(cp)| == 1
    ensures EncodeUtf8(cp)[0] == cp && EncodeUtf16(cp)[0] == cp && EncodeUtf32(cp)[0] == cp
  {
  }

  /** Text below U+0080 keeps its numbers in every form. */
  lemma {:induction false} AsciiUnchanged(cps: seq<Scalar>, i: nat)
    requires i < |cps| && forall j :: 0 <= j < |cps| ==> cps[j] < 0x80
    ensures |Spell(EncodeUtf8, cps)| == |Spell(EncodeUtf16, cps)| == |Spell(EncodeUtf32, cps)| == |cps|
    ensures Spell(EncodeUtf8, cps)[i] == cps[i] && Spell(EncodeUtf16, cps)[i] == cps[i] && Spell(EncodeUtf32, cps)[i] == cps[i]
  {
    AsciiIsItself(cps[0]);
    if |cps| > 1 {
      AsciiUnchanged(cps[1..], if i == 0 then 0 else i - 1);
    }
  }

  // ---------------------------------------------------------------- round trips

  /** Narrow to wide and back: defined on exactly the well-formed octets, and the identity there. */
  lemma NarrowWideNarrow(s: seq<Byte>)
    ensures Transcode(EncodeUtf8, EncodeUtf16, s).Some? <==> Utf8Octets(s)
    ensures Transcode(EncodeUtf8, EncodeUtf32, s).Some? <==> Utf8Octets(s)
    ensures Utf8Octets(s) ==>
      && Transcode(EncodeUtf16, EncodeUtf8, Transcode(EncodeUtf8, EncodeUtf16, s).value) == Some(s)
      && Transcode(EncodeUtf32, EncodeUtf8, Transcode(EncodeUtf8, EncodeUtf32, s).value) == Some(s)
  {
    Utf8Exact(s);
    if Utf8Octets(s) {
      Utf16Free();
      RoundTrip(EncodeUtf8, EncodeUtf16, s);
      Utf32Free();
      RoundTrip(EncodeUtf8, EncodeUtf32, s);
    }
  }

  /** UTF-16 to narrow and back: defined exactly where every surrogate is paired, and the identity there. */
  lemma WideNarrowWide(s: seq<Unit16>)
    ensures Transcode(EncodeUtf16, EncodeUtf8, s).Some? <==> Paired(s)
    ensures Paired(s) ==> Transcode(EncodeUtf8, EncodeUtf16, Transcode(EncodeUtf16, EncodeUtf8, s).value) == Some(s)
  {
    Utf16Exact(s);
    if Paired(s) {
      Utf8Free();
      RoundTrip(EncodeUtf16, EncodeUtf8, s);
    }
  }

  lemma Utf32NarrowUtf32(s: seq<Unit32>)
    ensures Transcode(EncodeUtf32, EncodeUtf8, s).Some? <==> forall u | u in s :: IsValidCodePoint(u)
    ensures (forall u | u in s :: IsValidCodePoint(u)) ==>
      Transcode(EncodeUtf8, EncodeUtf32, Transcode(EncodeUtf32, EncodeUtf8, s).value) == Some(s)
  {
    Utf32Exact(s);
    if forall u | u in s :: IsValidCodePoint(u) {
      Utf8Free();
      RoundTrip(EncodeUtf32, EncodeUtf8, s);
    }
  }

  /** Narrowing is injective on valid wide strings. */
  lemma NarrowingInjective(s: seq<Unit16>, t: seq<Unit16>)
    requires Paired(s) && Paired(t)
    ensures Transcode(EncodeUtf16, EncodeUtf8, s) == Transcode(EncodeUtf16, EncodeUtf8, t) <==> s == t
  {
    Utf16Exact(s);
    Utf8Free();
    if Transcode(EncodeUtf16, EncodeUtf8, s) == Transcode(EncodeUtf16, EncodeUtf8, t) {
      TranscodeInjective(EncodeUtf16, EncodeUtf8, s, t);
    }
  }

  lemma Narrowing32Injective(s: seq<Unit32>, t: seq<Unit32>)
    requires (forall u | u in s :: IsValidCodePoint(u)) && (forall u | u in t :: IsValidCodePoint(u))
    ensures Transcode(EncodeUtf32, EncodeUtf8, s) == Transcode(EncodeUtf32, EncodeUtf8, t) <==> s == t
  {
    Utf32Exact(s);
    Utf8Free();
    if Transcode(EncodeUtf32, EncodeUtf8, s) == Transcode(EncodeUtf32, EncodeUtf8, t) {
      TranscodeInjective(EncodeUtf32, EncodeUtf8, s, t);
    }
  }

  // ---------------------------------------------------------------- what is rejected

  /** A first octet that cannot lead, or a second octet outside the range its lead allows. */
  predicate BadStart(t: seq<Byte>) {
    && t != []
    && (|| 0x80 <= t[0] <= 0xC1 || t[0] >= 0xF5                                   // stray or overlong lead, out of range
        || (0xC2 <= t[0] && (|t| == 1 || !Tail(t[1])))                            // truncated or broken
        || (0xE0 <= t[0] && (|t| == 2 || (|t| > 2 && !Tail(t[2]))))
        || (0xF0 <= t[0] && (|t| == 3 || (|t| > 3 && !Tail(t[3]))))
        || (|t| > 1 && t[0] == 0xE0 && t[1] < 0xA0) || (|t| > 1 && t[0] == 0xF0 && t[1] < 0x90)  // overlong
        || (|t| > 1 && t[0] == 0xED && t[1] > 0x9F)                               // surrogates
        || (|t| > 1 && t[0] == 0xF4 && t[1] > 0x8F))                              // above U+10FFFF
  }

  /** A string raises exactly when, after some well-formed beginning, a character goes wrong in one of these ways. */
  lemma RejectedIff(s: seq<Byte>)
    ensures !Utf8Octets(s) <==> exists k :: 0 <= k <= |s| && Utf8Octets(s[..k]) && BadStart(s[k..])
    decreases |s|
  {
    if k :| 0 <= k <= |s| && Utf8Octets(s[..k]) && BadStart(s[k..]) {
      Utf8Free();
      Utf8Exact(s[..k]);
      var cps := Decode(EncodeUtf8, s[..k]).value;
      BadStartIsStuck(s[k..]);
      StopHere(EncodeUtf8, s, k, cps);
      Utf8Exact(s);
    }
    if !Utf8Octets(s) {
      var k := LastGood(s, 0);
    }
  }

  lemma GoodStart(t: seq<Byte>, cp: Scalar)
    requires EncodeUtf8(cp) <= t
    ensures t != [] && !BadStart(t)
  {
    var e := EncodeUtf8(cp);
    assert e[0] == t[0] && (|e| > 1 ==> e[1] == t[1]) && (|e| > 2 ==> e[2] == t[2]) && (|e| > 3 ==> e[3] == t[3]);
  }

  lemma BadStartIsStuck(t: seq<Byte>)
    requires t != []
    ensures BadStart(t) <==> forall cp: Scalar :: !(EncodeUtf8(cp) <= t)
  {
    forall cp: Scalar | EncodeUtf8(cp) <= t
      ensures !BadStart(t)
    {
      GoodStart(t, cp);
    }
    if !BadStart(t) {
      var n := if t[0] < 0x80 then 1 else if t[0] < 0xE0 then 2 else if t[0] < 0xF0 then 3 else 4;
      assert Utf8Char(t[..n]);
      Utf8Unique(t[..n], Payload(t[..n]));
      assert EncodeUtf8(Payload(t[..n])) <= t;
    }
  }

  /** A well-formed beginning and one more character make a longer well-formed beginning. */
  lemma GoodGrows(good: seq<Byte>, cp: Scalar)
    requires Utf8Octets(good)
    ensures Utf8Octets(good + EncodeUtf8(cp))
  {
    Utf8Exact(good);
    var cps :| Spell(EncodeUtf8, cps) == good;
    StepOut(EncodeUtf8, cps, cp);
    Utf8Exact(good + EncodeUtf8(cp));
  }

  lemma LongerPrefix<U>(s: seq<U>, beg: nat, a: seq<U>)
    requires beg <= |s| && a <= s[beg..]
    ensures beg + |a| <= |s| && s[..beg + |a|] == s[..beg] + a
  {
  }

  /** Walks a rejected string to the place where it goes wrong. */
  lemma {:induction false} LastGood(s: seq<Byte>, beg: nat) returns (k: nat)
    requires beg <= |s| && Utf8Octets(s[..beg]) && !Utf8Octets(s)
    ensures k <= |s| && Utf8Octets(s[..k]) && BadStart(s[k..])
    decreases |s| - beg
  {
    assert s[..|s|] == s;
    if BadStart(s[beg..]) {
      return beg;
    }
    BadStartIsStuck(s[beg..]);
    var cp: Scalar :| EncodeUtf8(cp) <= s[beg..];
    GoodGrows(s[..beg], cp);
    LongerPrefix(s, beg, EncodeUtf8(cp));
    k := LastGood(s, beg + |EncodeUtf8(cp)|);
  }

  // ---------------------------------------------------------------- pieces

  /** Of the octets of a character, the first is no continuation and all others are. */
  lemma OnlyLeadStarts(cp: Scalar, i: nat)
    requires i < |EncodeUtf8(cp)|
    ensures Tail(EncodeUtf8(cp)[i]) <==> i > 0
  {
  }

  lemma SlicesOfSum<U>(s: seq<U>, t: seq<U>, k: nat)
    requires k <= |s|
    ensures (s + t)[k..] == s[k..] + t && (s + t)[..k] == s[..k]
  {
  }

  /** A cut that leaves the first character whole is between characters exactly when it is so in what follows. */
  lemma CutBehindFirst(s: seq<Byte>, t: seq<Byte>, k: nat, cp: Scalar)
    requires k <= |s| && (s + t)[..k] == EncodeUtf8(cp)
    ensures Spellable(EncodeUtf8, s + t) <==> Spellable(EncodeUtf8, s[k..] + t)
    ensures Spellable(EncodeUtf8, s) <==> Spellable(EncodeUtf8, s[k..])
  {
    Utf8Free();
    SlicesOfSum(s, t, k);
    PeelOne(EncodeUtf8, s + t, k, cp);
    PeelOne(EncodeUtf8, s, k, cp);
  }

  /** The first character of a well-formed beginning is the first of the whole. */
  lemma FirstCharacterFits(s: seq<Byte>, t: seq<Byte>, cp: Scalar)
    requires EncodeUtf8(cp) <= s + t
    ensures Spellable(EncodeUtf8, s) && s != [] ==> |EncodeUtf8(cp)| <= |s|
  {
    if Spellable(EncodeUtf8, s) && s != [] {
      var j, head := FirstOf(EncodeUtf8, s);
      Utf8Free();
      assert (s + t)[..j] == s[..j];
      SameHead(EncodeUtf8, head, cp, s + t);
    }
  }

  /** A cut inside the first character leaves a continuation behind it and nothing spellable before it. */
  lemma CutInFirst(s: seq<Byte>, t: seq<Byte>, k: nat, cp: Scalar)
    requires 0 < |s| < k <= |s + t| && (s + t)[..k] == EncodeUtf8(cp)
    ensures t != [] && Tail(t[0]) && !Spellable(EncodeUtf8, s)
  {
    OnlyLeadStarts(cp, |s|);
    assert t[0] == (s + t)[..k][|s|];
    FirstCharacterFits(s, t, cp);
  }

  /** A cut of a well-formed text is between characters exactly when no continuation follows it. */
  lemma {:induction false} CutBetweenIff(s: seq<Byte>, t: seq<Byte>)
    requires Spellable(EncodeUtf8, s + t)
    ensures Spellable(EncodeUtf8, s) <==> t == [] || !Tail(t[0])
    decreases |s|
  {
    if s + t == [] {
      assert s == s + t;
      return;
    }
    var k, cp := FirstOf(EncodeUtf8, s + t);
    OnlyLeadStarts(cp, 0);
    if s == [] {
      EmptySpellable(EncodeUtf8);
      assert s + t == t && t[0] == (s + t)[..k][0];
    } else if k <= |s| {
      CutBehindFirst(s, t, k, cp);
      CutBetweenIff(s[k..], t);
    } else {
      CutInFirst(s, t, k, cp);
    }
  }

  /**
   Converting a text in two pieces gives the same as converting it whole exactly when the cut
   is not inside a character, which the octet behind it tells; cut inside one, the first piece
   alone raises. This is why the readers join every piece before they convert.
   */
  lemma CutIff(s: seq<Byte>, t: seq<Byte>)
    requires Utf8Octets(s + t)
    ensures var first, second := Transcode(EncodeUtf8, EncodeUtf16, s), Transcode(EncodeUtf8, EncodeUtf16, t);
      && (first.Some? <==> (t == [] || !Tail(t[0])))
      && (first.Some? ==> second.Some? && Transcode(EncodeUtf8, EncodeUtf16, s + t) == Some(first.value + second.value))
  {
    Utf8Exact(s + t);
    CutBetweenIff(s, t);
    Utf8Free();
    if Spellable(EncodeUtf8, s) {
      TranscodeConcat(EncodeUtf8, EncodeUtf16, s, t);
    }
  }

  lemma CutWideIff(s: seq<Unit16>, t: seq<Unit16>)
    requires Paired(s + t)
    ensures var first, second := Transcode(EncodeUtf16, EncodeUtf8, s), Transcode(EncodeUtf16, EncodeUtf8, t);
      && (first.Some? <==> (s == [] || !High(s[|s| - 1])))
      && (first.Some? ==> second.Some? && Transcode(EncodeUtf16, EncodeUtf8, s + t) == Some(first.value + second.value))
  {
    Utf16Exact(s + t);
    Utf16Exact(s);
    Utf16Free();
    assert Paired(s) <==> (s == [] || !High(s[|s| - 1])) by {
      forall i | 0 <= i < |s|
        ensures PairedAt(s + t, i) && (i + 1 < |s| ==> PairedAt(s, i)) && (!High(s[i]) ==> PairedAt(s, i))
      {
        assert PairedAt(s + t, i);
        assert i > 0 ==> (s + t)[i - 1] == s[i - 1];
        assert i + 1 < |s| ==> (s + t)[i + 1] == s[i + 1];
      }
      if s != [] && High(s[|s| - 1]) {
        assert !PairedAt(s, |s| - 1);
      }
    }
    if Paired(s) {
      TranscodeConcat(EncodeUtf16, EncodeUtf8, s, t);
    }
  }

  // ---------------------------------------------------------------- zero units

  /** In all three forms a zero unit is the whole spelling of U+0000 and occurs in no other. */
  lemma ZeroIsNul(cp: Scalar)
    ensures 0 in EncodeUtf8(cp) <==> cp == 0
    ensures 0 in EncodeUtf16(cp) <==> cp == 0
    ensures 0 in EncodeUtf32(cp) <==> cp == 0
    ensures EncodeUtf8(0) == [0] && EncodeUtf16(0) == [0] && EncodeUtf32(0) == [0]
  {
    var e := EncodeUtf8(cp);
    if 0 in e {
      var i :| 0 <= i < |e| && e[i] == 0;
      assert i == 0;
    }
  }

  /** Cutting at the first zero unit is the same before and after encoding. */
  lemma {:induction false} CStrCommutes<U>(enc: Scalar -> seq<U>, cps: seq<Scalar>, nul: U)
    requires forall cp: Scalar :: nul in enc(cp) <==> cp == 0
    requires enc(0) == [nul]
    ensures CStr(Spell(enc, cps), nul) == Spell(enc, CStr(cps, 0))
  {
    if cps == [] {
    } else if cps[0] == 0 {
      assert Spell(enc, cps)[0] == nul;
    } else {
      CStrCommutes(enc, cps[1..], nul);
      CStrPrepend(enc(cps[0]), Spell(enc, cps[1..]), nul);
      var c := CStr(cps, 0);
      assert c == [cps[0]] + CStr(cps[1..], 0);
      assert c[1..] == CStr(cps[1..], 0);
    }
  }

  lemma CStrPrepend<U>(a: seq<U>, b: seq<U>, nul: U)
    requires nul !in a
    ensures CStr(a + b, nul) == a + CStr(b, nul)
  {
    CStrUnique(a + b, nul, a + CStr(b, nul));
  }
}
