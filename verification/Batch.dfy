/**
 Batches of text and binary values packed at a fixed stride, with one indicator per value,
 and the null sentry. A statement is modelled per character type, as the template is.
 */
module Batch {
  import opened Base
  import opened Unicode
  import opened PrefixCodes
  import opened Codec
  import opened CodecTheorems

  // ---------------------------------------------------------------- packing as a function

  function Longest<T>(values: seq<seq<T>>): nat {
    if values == [] then 0 else Max(|values[|values| - 1]|, Longest(values[..|values| - 1]))
  }

  /** Every value at its multiple of the stride, and filler in between. */
  function Packed<T>(values: seq<seq<T>>, stride: nat, filler: T): seq<T>
    requires stride >= Longest(values)
  {
    if values == [] then []
    else
      var last := values[|values| - 1];
      Packed(values[..|values| - 1], stride, filler) + (last + Fill(stride - |last|, filler))
  }

  lemma {:induction false} LongestBounds<T>(values: seq<seq<T>>, i: nat)
    requires i < |values|
    ensures |values[i]| <= Longest(values)
  {
    if i < |values| - 1 {
      LongestBounds(values[..|values| - 1], i);
    }
  }

  lemma SliceOfFirst<T>(a: seq<T>, b: seq<T>, from: nat, to: nat)
    requires from <= to <= |a|
    ensures (a + b)[from..to] == a[from..to]
  {
  }

  lemma SliceOfSecond<T>(a: seq<T>, b: seq<T>)
    ensures (a + b)[|a|..|a| + |b|] == b
  {
  }

  lemma {:induction false} PackedLength<T>(values: seq<seq<T>>, stride: nat, filler: T)
    requires stride >= Longest(values)
    ensures |Packed(values, stride, filler)| == |values| * stride
  {
    if values != [] {
      PackedLength(values[..|values| - 1], stride, filler);
      SlotFits(|values| - 1, |values|, stride);
    }
  }

  /** A slot, with the multiple of the stride given a name. */
  lemma {:induction false} SlotAt<T>(values: seq<seq<T>>, stride: nat, filler: T, i: nat, at: nat)
    requires stride >= Longest(values) && i < |values| && at == i * stride
    ensures at + stride <= |Packed(values, stride, filler)| && |values[i]| <= stride
    ensures Packed(values, stride, filler)[at..at + stride] == values[i] + Fill(stride - |values[i]|, filler)
  {
    var n := |values| - 1;
    var front := values[..n];
    var q, last := Packed(front, stride, filler), values[n] + Fill(stride - |values[n]|, filler);
    LongestBounds(values, i);
    PackedLength(front, stride, filler);
    if i < n {
      SlotAt(front, stride, filler, i, at);
      SliceOfFirst(q, last, at, at + stride);
    } else {
      SliceOfSecond(q, last);
    }
  }

  /** The slots are where the multiples of the stride say: none reaches into another. */
  lemma PackedAt<T>(values: seq<seq<T>>, stride: nat, filler: T, i: nat)
    requires stride >= Longest(values) && i < |values|
    ensures |Packed(values, stride, filler)| == |values| * stride && |values[i]| <= stride
    ensures 0 <= i * stride <= (i + 1) * stride <= |values| * stride
    ensures Packed(values, stride, filler)[i * stride..(i + 1) * stride] == values[i] + Fill(stride - |values[i]|, filler)
  {
    PackedLength(values, stride, filler);
    SlotFits(i, |values|, stride);
    SlotAt(values, stride, filler, i, i * stride);
  }

  // ---------------------------------------------------------------- what the driver is given

  function From<T>(data: seq<T>, at: int): seq<T> { if 0 <= at <= |data| then data[at..] else [] }

  /** What the driver reads at one slot: nothing, a terminated text, or as many units as the indicator says. */
  function ReceivedAt<T(==)>(memory: seq<T>, indicator: int, nul: T): Option<seq<T>> {
    if indicator == SQL_NULL_DATA then None
    else if indicator == SQL_NTS then Some(CStr(memory, nul))
    else if 0 <= indicator <= |memory| then Some(memory[..indicator])
    else None
  }

  /** What the driver reads for a whole batch, value i at i times the stride. */
  function Received<T(==)>(data: seq<T>, stride: nat, indicators: seq<int>, nul: T, batch: nat): seq<Option<seq<T>>>
    requires batch <= |indicators|
  {
    seq(batch, i requires 0 <= i < batch => ReceivedAt(From(data, i * stride), indicators[i], nul))
  }

  /** What the caller meant by a batch of texts: nothing where flagged, and elsewhere the text up to its first zero. */
  function Texts<T(==)>(values: seq<seq<T>>, nulls: Option<seq<bool>>, nul: T): seq<Option<seq<T>>> {
    seq(|values|, i requires 0 <= i < |values| => if Flagged(nulls, i) then None else Some(CStr(values[i], nul)))
  }

  /** What the caller meant by a batch of byte vectors: nothing where flagged, and elsewhere every byte. */
  function Vectors(values: seq<seq<Byte>>, nulls: Option<seq<bool>>): seq<Option<seq<Byte>>> {
    seq(|values|, i requires 0 <= i < |values| => if Flagged(nulls, i) then None else Some(values[i]))
  }

  /** What a buffer of texts holds at every multiple of the stride: nothing where flagged, and elsewhere a terminated text. */
  function Blocks<T(==)>(data: seq<T>, stride: nat, nulls: Option<seq<bool>>, nul: T, batch: nat): seq<Option<seq<T>>> {
    seq(batch, i requires 0 <= i < batch => if Flagged(nulls, i) then None else Some(CStr(From(data, i * stride), nul)))
  }

  /** The buffer length of a text: its width, or where none is stated the text's own length and terminator. */
  function BufferUnits<T(==)>(data: seq<T>, valueSize: nat, nul: T): (units: nat)
    ensures units > 0 && (valueSize > 0 ==> units == valueSize)
    ensures valueSize == 0 ==> units - 1 <= |data| && nul !in data[..units - 1] && (units <= |data| ==> data[units - 1] == nul)
  {
    if valueSize > 0 then valueSize else |CStr(data, nul)| + 1
  }

  /** The buffer length of a byte vector: its width, or where that is zero the size of one byte. */
  function BufferBytes(valueSize: nat): (bytes: nat)
    ensures bytes > 0 && bytes >= valueSize && (bytes == valueSize || bytes == 1)
  {
    if valueSize > 0 then valueSize else 1
  }

  lemma TextInSlot<T>(p: seq<T>, at: nat, stride: nat, v: seq<T>, nul: T)
    requires at + stride <= |p| && |v| < stride && p[at..at + stride] == v + Fill(stride - |v|, nul)
    ensures CStr(From(p, at), nul) == CStr(v, nul)
  {
    var memory, c := p[at..], CStr(v, nul);
    var slot := v + Fill(stride - |v|, nul);
    assert memory[..stride] == slot;
    assert slot[|v|] == nul;
    assert c <= v <= slot;
    CStrUnique(memory, nul, c);
  }

  lemma BytesInSlot(p: seq<Byte>, at: nat, stride: nat, v: seq<Byte>)
    requires at + stride <= |p| && |v| <= stride && p[at..at + stride] == v + Fill(stride - |v|, 0)
    ensures |v| <= |From(p, at)| && From(p, at)[..|v|] == v
  {
    assert p[at..][..|v|] == p[at..at + stride][..|v|];
  }

  /** A text packed with room for a terminator reads back up to its own first zero. */
  lemma PackedTextReadsBack<T>(values: seq<seq<T>>, stride: nat, nul: T, i: nat)
    requires stride > Longest(values) && i < |values|
    ensures CStr(From(Packed(values, stride, nul), i * stride), nul) == CStr(values[i], nul)
  {
    SlotFits(i, |values|, stride);
    var at := i * stride;
    SlotAt(values, stride, nul, i, at);
    LongestBounds(values, i);
    TextInSlot(Packed(values, stride, nul), at, stride, values[i], nul);
  }

  /** A byte vector reads back whole, zeros and all. */
  lemma PackedBytesReadBack(values: seq<seq<Byte>>, i: nat)
    requires i < |values|
    ensures var memory := From(Packed(values, Longest(values), 0), i * Longest(values));
      |values[i]| <= |memory| && memory[..|values[i]|] == values[i]
  {
    SlotFits(i, |values|, Longest(values));
    var at := i * Longest(values);
    SlotAt(values, Longest(values), 0, i, at);
    BytesInSlot(Packed(values, Longest(values), 0), at, Longest(values), values[i]);
  }

  // ---------------------------------------------------------------- the sentry comparison

  function UnitAt(s: seq<Byte>, k: nat): Byte { if k < |s| then s[k] else 0 }

  /** strncmp answering zero, by its contract: at most n units, and none after a terminator. */
  predicate StrncmpIsZero(l: seq<Byte>, r: seq<Byte>, n: nat)
    decreases n
  {
    n == 0
    || (&& UnitAt(l, 0) == UnitAt(r, 0)
        && (UnitAt(l, 0) == 0 || StrncmpIsZero(l[1..], if r == [] then [] else r[1..], n - 1)))
  }

  /** `equals` on narrow strings: the length of the left side bounds the comparison. */
  predicate EqualsNarrow(l: seq<Byte>, r: seq<Byte>) { StrncmpIsZero(l, r, |l|) }

  /** When `equals` finds two texts the same: up to the first zero, or the left is a zero-free beginning of the right. */
  predicate Matches<T(==)>(l: seq<T>, r: seq<T>, nul: T) {
    CStr(l, nul) == CStr(r, nul) || (nul !in l && l <= CStr(r, nul))
  }

  /** It compares up to the first zero, and where the left side has none it only asks for a prefix. */
  lemma {:induction false} EqualsNarrowIff(l: seq<Byte>, r: seq<Byte>)
    ensures EqualsNarrow(l, r) <==> Matches(l, r, 0)
    ensures EqualsNarrow(l, r) <==> CStr(l, 0) == CStr(r, 0) || (0 !in l && l <= CStr(r, 0))
    decreases |l|
  {
    var cl, cr := CStr(l, 0), CStr(r, 0);
    if l != [] && l[0] != 0 && r != [] && r[0] == l[0] {
      EqualsNarrowIff(l[1..], r[1..]);
      assert cl == [l[0]] + CStr(l[1..], 0) && cr == [r[0]] + CStr(r[1..], 0);
      assert cl[1..] == CStr(l[1..], 0) && cr[1..] == CStr(r[1..], 0);
      assert 0 in l <==> 0 in l[1..];
      assert l <= cr <==> l[1..] <= CStr(r[1..], 0) by {
        assert l == [l[0]] + l[1..];
      }
    } else if l == [] {
      assert l <= cr;
    }
  }

  /** The comparison is one of the code points, in whichever form both sides are spelled. */
  lemma SpelledMatchesIff<U(!new)>(enc: Scalar -> seq<U>, a: seq<Scalar>, b: seq<Scalar>, nul: U)
    requires PrefixFree(enc) && enc(0) == [nul] && forall cp: Scalar :: nul in enc(cp) <==> cp == 0
    ensures Matches(Spell(enc, a), Spell(enc, b), nul) <==> Matches(a, b, 0)
  {
    var l, r := Spell(enc, a), Spell(enc, b);
    CStrCommutes(enc, a, nul);
    CStrCommutes(enc, b, nul);
    if CStr(l, nul) == CStr(r, nul) {
      SpellInjective(enc, CStr(a, 0), CStr(b, 0));
    }
    ZeroFreeIff(enc, a, nul);
    SpellPrefixIff(enc, a, CStr(b, 0));
  }

  lemma ZeroFreeIff<U(!new)>(enc: Scalar -> seq<U>, a: seq<Scalar>, nul: U)
    requires PrefixFree(enc) && enc(0) == [nul] && forall cp: Scalar :: nul in enc(cp) <==> cp == 0
    ensures nul !in Spell(enc, a) <==> 0 !in a
  {
    CStrCommutes(enc, a, nul);
    if nul !in Spell(enc, a) {
      CStrUnique(Spell(enc, a), nul, Spell(enc, a));
      SpellInjective(enc, a, CStr(a, 0));
    } else if 0 !in a {
      CStrUnique(a, 0, a);
    }
  }

  /** `equals` on wide strings narrows both sides first, and raises if either is malformed. */
  method EqualsWide(l: seq<Unit16>, r: seq<Unit16>) returns (eq: Outcome<bool>)
    ensures eq == if Paired(l) && Paired(r) then Done(Matches(l, r, 0)) else Raised
    ensures eq.Raised? <==> !(Paired(l) && Paired(r))
    ensures eq.Done? ==> (eq.value <==> CStr(l, 0) == CStr(r, 0) || (0 !in l && l <= CStr(r, 0)))
  {
    var narrowL := ConvertUtf16ToUtf8(l);
    if narrowL.None? {
      return Raised;
    }
    var narrowR := ConvertUtf16ToUtf8(r);
    if narrowR.None? {
      return Raised;
    }
    NarrowedEquals(l, r);
    eq := Done(EqualsNarrow(narrowL.value, narrowR.value));
  }

  /** The codec is injective and only U+0000 has a zero byte, so the narrow comparison decides the wide one. */
  lemma NarrowedEquals(l: seq<Unit16>, r: seq<Unit16>)
    requires Paired(l) && Paired(r)
    ensures Transcode(EncodeUtf16, EncodeUtf8, l).Some? && Transcode(EncodeUtf16, EncodeUtf8, r).Some?
    ensures EqualsNarrow(Transcode(EncodeUtf16, EncodeUtf8, l).value, Transcode(EncodeUtf16, EncodeUtf8, r).value)
      <==> Matches(l, r, 0)
  {
    Utf16Exact(l);
    Utf16Exact(r);
    Utf8Free();
    Utf16Free();
    forall cp: Scalar
      ensures (0 in EncodeUtf8(cp) <==> cp == 0) && (0 in EncodeUtf16(cp) <==> cp == 0)
    {
      ZeroIsNul(cp);
    }
    ZeroIsNul(0);
    var a, b := Decode(EncodeUtf16, l).value, Decode(EncodeUtf16, r).value;
    EqualsNarrowIff(Spell(EncodeUtf8, a), Spell(EncodeUtf8, b));
    SpelledMatchesIff(EncodeUtf8, a, b, 0);
    SpelledMatchesIff(EncodeUtf16, a, b, 0);
  }

  // ---------------------------------------------------------------- the statement

  predicate Flagged(nulls: Option<seq<bool>>, i: nat) {
    nulls.Some? && i < |nulls.value| && nulls.value[i]
  }

  /** The indicators of a text batch and of a byte batch under null flags. */
  function TextMarks(batch: nat, nulls: Option<seq<bool>>): seq<int> {
    seq(batch, i requires 0 <= i < batch => if Flagged(nulls, i) then SQL_NULL_DATA else SQL_NTS)
  }

  function SizeMarks<T>(values: seq<seq<T>>, nulls: Option<seq<bool>>): seq<int> {
    seq(|values|, i requires 0 <= i < |values| => if Flagged(nulls, i) then SQL_NULL_DATA else |values[i]|)
  }

  /** The first `done` indicators say what they should, and every other one says null. */
  predicate Marked(indicators: seq<int>, marks: seq<int>, done: nat) {
    && |indicators| == Max(|marks|, 8) && done <= |marks|
    && forall k | 0 <= k < |indicators| :: indicators[k] == if k < done then marks[k] else SQL_NULL_DATA
  }

  lemma MarkedOn(indicators: seq<int>, marks: seq<int>, i: nat)
    requires Marked(indicators, marks, i) && i < |marks|
    ensures Marked(indicators[i := marks[i]], marks, i + 1)
    ensures marks[i] == SQL_NULL_DATA ==> indicators[i := marks[i]] == indicators
  {
  }

  /** `T` is the character type; `nul` its zero. */
  class Statement<T(==)> {
    const nul: T
    var bindLenOrNull: map<nat, seq<int>>
    var stringData: map<nat, seq<T>>
    var binaryData: map<nat, seq<Byte>>
    var bufferLength: map<nat, nat>

    constructor (nul: T)
      ensures this.nul == nul
    {
      this.nul := nul;
      bindLenOrNull, stringData, binaryData, bufferLength := map[], map[], map[], map[];
    }

    /** Every indicator starts out null, over at least eight of them. */
    method PrepareBind(param: nat, batch: nat)
      modifies this`bindLenOrNull
      ensures bindLenOrNull == old(bindLenOrNull)[param := Fill(Max(batch, 8), SQL_NULL_DATA)]
    {
      var indicatorSize := if batch > 8 then batch else 8;
      bindLenOrNull := bindLenOrNull[param := Fill(indicatorSize, SQL_NULL_DATA)];
    }

    /** The pointer form of bind_strings: the caller's buffer is bound as it is, and read back block by block. */
    method BindBuffer(param: nat, values: seq<T>, valueSize: nat, batch: nat, nulls: Option<seq<bool>>)
      requires batch * BufferUnits(values, valueSize, nul) <= |values| && (nulls.Some? ==> batch <= |nulls.value|)
      modifies this`bindLenOrNull, this`bufferLength
      ensures param in bindLenOrNull && Marked(bindLenOrNull[param], TextMarks(batch, nulls), batch)
      ensures |bindLenOrNull[param]| == Max(batch, 8)
      ensures forall i | 0 <= i < |bindLenOrNull[param]| ::
        bindLenOrNull[param][i] == if i < batch && !(nulls.Some? && nulls.value[i]) then -3 else -1
      ensures bindLenOrNull == old(bindLenOrNull)[param := bindLenOrNull[param]]
      ensures bufferLength == old(bufferLength)[param := BufferUnits(values, valueSize, nul)]
      ensures Received(values, BufferUnits(values, valueSize, nul), bindLenOrNull[param], nul, batch)
           == Blocks(values, BufferUnits(values, valueSize, nul), nulls, nul, batch)
    {
      PrepareBind(param, batch);
      ghost var marks := TextMarks(batch, nulls);
      if nulls.Some? {
        for i := 0 to batch
          invariant param in bindLenOrNull && bindLenOrNull == old(bindLenOrNull)[param := bindLenOrNull[param]]
          invariant Marked(bindLenOrNull[param], marks, i) && bufferLength == old(bufferLength)
        {
          if !nulls.value[i] {
            bindLenOrNull := bindLenOrNull[param := bindLenOrNull[param][i := SQL_NTS]];
          }
        }
      } else {
        for i := 0 to batch
          invariant param in bindLenOrNull && bindLenOrNull == old(bindLenOrNull)[param := bindLenOrNull[param]]
          invariant Marked(bindLenOrNull[param], marks, i) && bufferLength == old(bufferLength)
        {
          bindLenOrNull := bindLenOrNull[param := bindLenOrNull[param][i := SQL_NTS]];
        }
      }
      bufferLength := bufferLength[param := BufferUnits(values, valueSize, nul)];
      BlocksReceived(values, BufferUnits(values, valueSize, nul), nulls, bindLenOrNull[param], nul, batch);
    }

    /** The vector form: the texts are packed with room for a terminator, and the driver reads every one back. */
    method BindStrings(param: nat, values: seq<seq<T>>, nulls: Option<seq<bool>>)
      requires nulls.Some? ==> |values| <= |nulls.value|
      modifies this
      ensures binaryData == old(binaryData)
      ensures param in bindLenOrNull && bindLenOrNull == old(bindLenOrNull)[param := bindLenOrNull[param]]
      ensures param in stringData && stringData == old(stringData)[param := stringData[param]]
      ensures param in bufferLength && bufferLength == old(bufferLength)[param := Longest(values) + 1]
      ensures stringData[param] == Packed(values, bufferLength[param], nul)
      ensures |bindLenOrNull[param]| == Max(|values|, 8)
      ensures forall i | 0 <= i < |bindLenOrNull[param]| ::
        bindLenOrNull[param][i] == if i < |values| && !(nulls.Some? && nulls.value[i]) then -3 else -1
      ensures Received(stringData[param], bufferLength[param], bindLenOrNull[param], nul, |values|) == Texts(values, nulls, nul)
    {
      PrepareBind(param, |values|);
      var packed, stride := PackTexts(values);
      stringData := stringData[param := packed];
      BindBuffer(param, packed, stride, |values|, nulls);
      TextReceived(values, nulls, bindLenOrNull[param], nul, packed, stride);
    }

    /** The longest text and room for its terminator give the stride. */
    method PackTexts(values: seq<seq<T>>) returns (packed: seq<T>, stride: nat)
      ensures stride == Longest(values) + 1 && packed == Packed(values, stride, nul) && |packed| == |values| * stride
    {
      stride := MaxLength(values);
      stride := stride + 1;
      var data := PackValues(values, stride, nul);
      PackedLength(values, stride, nul);
      packed := data[..];
    }

    /** Byte vectors: no terminator, and the indicator carries the length. */
    method BindBinary(param: nat, values: seq<seq<Byte>>, nulls: Option<seq<bool>>)
      requires nulls.Some? ==> |values| <= |nulls.value|
      modifies this
      ensures stringData == old(stringData)
      ensures param in bindLenOrNull && bindLenOrNull == old(bindLenOrNull)[param := bindLenOrNull[param]]
      ensures param in binaryData && binaryData == old(binaryData)[param := binaryData[param]]
      ensures param in bufferLength && bufferLength == old(bufferLength)[param := BufferBytes(Longest(values))]
      ensures binaryData[param] == Packed(values, Longest(values), 0)
      ensures |bindLenOrNull[param]| == Max(|values|, 8)
      ensures forall i | 0 <= i < |bindLenOrNull[param]| ::
        bindLenOrNull[param][i] == if i < |values| && !(nulls.Some? && nulls.value[i]) then |values[i]| else -1
      ensures Received(binaryData[param], bufferLength[param], bindLenOrNull[param], 0, |values|) == Vectors(values, nulls)
    {
      PrepareBind(param, |values|);
      var stride := MaxLength(values);
      var data := PackValues(values, stride, 0);
      binaryData := binaryData[param := data[..]];
      MarkSizes(param, values, nulls);
      bufferLength := bufferLength[param := BufferBytes(stride)];
      BytesReceived(values, nulls, bindLenOrNull[param], binaryData[param], bufferLength[param]);
    }

    method MarkSizes(param: nat, values: seq<seq<Byte>>, nulls: Option<seq<bool>>)
      requires nulls.Some? ==> |values| <= |nulls.value|
      requires param in bindLenOrNull && Marked(bindLenOrNull[param], SizeMarks(values, nulls), 0)
      modifies this`bindLenOrNull
      ensures param in bindLenOrNull && Marked(bindLenOrNull[param], SizeMarks(values, nulls), |values|)
      ensures bindLenOrNull == old(bindLenOrNull)[param := bindLenOrNull[param]]
    {
      ghost var marks := SizeMarks(values, nulls);
      if nulls.Some? {
        for i := 0 to |values|
          invariant param in bindLenOrNull && bindLenOrNull == old(bindLenOrNull)[param := bindLenOrNull[param]]
          invariant Marked(bindLenOrNull[param], marks, i)
        {
          if !nulls.value[i] {
            bindLenOrNull := bindLenOrNull[param := bindLenOrNull[param][i := |values[i]|]];
          }
        }
      } else {
        for i := 0 to |values|
          invariant param in bindLenOrNull && bindLenOrNull == old(bindLenOrNull)[param := bindLenOrNull[param]]
          invariant Marked(bindLenOrNull[param], marks, i)
        {
          bindLenOrNull := bindLenOrNull[param := bindLenOrNull[param][i := |values[i]|]];
        }
      }
    }
  }

  lemma Same<T>(a: seq<T>, b: seq<T>)
    requires |a| == |b| && forall i | 0 <= i < |a| :: a[i] == b[i]
    ensures a == b
  {
  }

  lemma TextArrives<T>(memory: seq<T>, indicator: int, nul: T, isNull: bool, v: seq<T>)
    requires CStr(memory, nul) == CStr(v, nul) && indicator == if isNull then SQL_NULL_DATA else SQL_NTS
    ensures ReceivedAt(memory, indicator, nul) == if isNull then None else Some(CStr(v, nul))
  {
  }

  lemma TextReceivedAt<T>(values: seq<seq<T>>, nulls: Option<seq<bool>>, indicators: seq<int>, nul: T, data: seq<T>, stride: nat, i: nat)
    requires Marked(indicators, TextMarks(|values|, nulls), |values|) && i < |values|
    requires stride == Longest(values) + 1 && data == Packed(values, stride, nul)
    ensures ReceivedAt(From(data, i * stride), indicators[i], nul) == if Flagged(nulls, i) then None else Some(CStr(values[i], nul))
  {
    PackedTextReadsBack(values, stride, nul, i);
    assert indicators[i] == TextMarks(|values|, nulls)[i];
    TextArrives(From(data, i * stride), indicators[i], nul, Flagged(nulls, i), values[i]);
  }

  /** Packing loses nothing: through indicator, stride and terminator the driver reads every text back. */
  lemma TextReceived<T>(values: seq<seq<T>>, nulls: Option<seq<bool>>, indicators: seq<int>, nul: T, data: seq<T>, stride: nat)
    requires Marked(indicators, TextMarks(|values|, nulls), |values|)
    requires stride == Longest(values) + 1 && data == Packed(values, stride, nul)
    ensures Received(data, stride, indicators, nul, |values|) == Texts(values, nulls, nul)
  {
    var received, meant := Received(data, stride, indicators, nul, |values|), Texts(values, nulls, nul);
    forall i | 0 <= i < |values|
      ensures received[i] == meant[i]
    {
      TextReceivedAt(values, nulls, indicators, nul, data, stride, i);
    }
    Same(received, meant);
  }

  /** The same for a buffer of the caller's own. */
  lemma BlocksReceived<T>(data: seq<T>, stride: nat, nulls: Option<seq<bool>>, indicators: seq<int>, nul: T, batch: nat)
    requires Marked(indicators, TextMarks(batch, nulls), batch)
    ensures Received(data, stride, indicators, nul, batch) == Blocks(data, stride, nulls, nul, batch)
  {
    var received, meant := Received(data, stride, indicators, nul, batch), Blocks(data, stride, nulls, nul, batch);
    forall i | 0 <= i < batch
      ensures received[i] == meant[i]
    {
      assert indicators[i] == TextMarks(batch, nulls)[i];
    }
    Same(received, meant);
  }

  lemma BytesArrive(memory: seq<Byte>, indicator: int, isNull: bool, v: seq<Byte>)
    requires |v| <= |memory| && memory[..|v|] == v && indicator == if isNull then SQL_NULL_DATA else |v|
    ensures ReceivedAt(memory, indicator, 0) == if isNull then None else Some(v)
  {
  }

  lemma BytesReceivedAt(values: seq<seq<Byte>>, nulls: Option<seq<bool>>, indicators: seq<int>, data: seq<Byte>, stride: nat, i: nat)
    requires Marked(indicators, SizeMarks(values, nulls), |values|) && i < |values|
    requires stride == BufferBytes(Longest(values)) && data == Packed(values, Longest(values), 0)
    ensures ReceivedAt(From(data, i * stride), indicators[i], 0) == if Flagged(nulls, i) then None else Some(values[i])
  {
    assert indicators[i] == SizeMarks(values, nulls)[i];
    var memory := From(data, i * stride);
    if Longest(values) > 0 {
      PackedBytesReadBack(values, i);
    } else {
      LongestBounds(values, i);
      assert memory[..0] == values[i];
    }
    BytesArrive(memory, indicators[i], Flagged(nulls, i), values[i]);
  }

  /** The same for byte vectors, through the indicator's length, the batch of empty ones included. */
  lemma BytesReceived(values: seq<seq<Byte>>, nulls: Option<seq<bool>>, indicators: seq<int>, data: seq<Byte>, stride: nat)
    requires Marked(indicators, SizeMarks(values, nulls), |values|)
    requires stride == BufferBytes(Longest(values)) && data == Packed(values, Longest(values), 0)
    ensures Received(data, stride, indicators, 0, |values|) == Vectors(values, nulls)
  {
    var received, meant := Received(data, stride, indicators, 0, |values|), Vectors(values, nulls);
    forall i | 0 <= i < |values|
      ensures received[i] == meant[i]
    {
      BytesReceivedAt(values, nulls, indicators, data, stride, i);
    }
    Same(received, meant);
  }

  method MaxLength<T>(values: seq<seq<T>>) returns (longest: nat)
    ensures longest == Longest(values)
    ensures forall i | 0 <= i < |values| :: |values[i]| <= longest
    ensures if values == [] then longest == 0 else exists i :: 0 <= i < |values| && |values[i]| == longest
  {
    longest := 0;
    for i := 0 to |values|
      invariant longest == Longest(values[..i])
      invariant forall j | 0 <= j < i :: |values[j]| <= longest
      invariant if i == 0 then longest == 0 else exists j :: 0 <= j < i && |values[j]| == longest
    {
      assert values[..i + 1][..i] == values[..i];
      longest := Max(|values[i]|, longest);
    }
    assert values[..|values|] == values;
  }

  /** One more slot: the buffer so far, then the value over filler. */
  lemma PackOne<T>(values: seq<seq<T>>, i: nat, stride: nat, filler: T, rest: nat)
    requires i < |values| && stride >= Longest(values) && |values[i]| <= rest
    requires Longest(values[..i]) <= stride <= rest
    ensures Longest(values[..i + 1]) <= stride
    ensures Packed(values[..i], stride, filler) + values[i] + Fill(rest - |values[i]|, filler)
         == Packed(values[..i + 1], stride, filler) + Fill(rest - stride, filler)
  {
    var v := values[i];
    LongestBounds(values, i);
    assert values[..i + 1][..i] == values[..i];
    assert Fill(rest - |v|, filler) == Fill(stride - |v|, filler) + Fill(rest - stride, filler);
  }

  /** One turn of the copying loop. */
  method PackSlot<T>(data: array<T>, values: seq<seq<T>>, i: nat, base: nat, stride: nat, filler: T)
    requires i < |values| && stride >= Longest(values) && Longest(values[..i]) <= stride
    requires base + stride <= data.Length && base == |Packed(values[..i], stride, filler)|
    requires data[..] == Packed(values[..i], stride, filler) + Fill(data.Length - base, filler)
    modifies data
    ensures Longest(values[..i + 1]) <= stride
    ensures data[..] == Packed(values[..i + 1], stride, filler) + Fill(data.Length - base - stride, filler)
  {
    LongestBounds(values, i);
    ghost var rest := data.Length - base;
    assert data[..base] == Packed(values[..i], stride, filler);
    assert data[base + |values[i]|..] == Fill(rest - |values[i]|, filler);
    CopyInto(data, base, values[i]);
    PackOne(values, i, stride, filler, rest);
  }

  /** A zeroed buffer, and each value copied to its multiple of the stride. */
  method PackValues<T>(values: seq<seq<T>>, stride: nat, filler: T) returns (data: array<T>)
    requires stride >= Longest(values)
    ensures fresh(data) && data[..] == Packed(values, stride, filler)
  {
    var n := |values|;
    ProductNat(n, stride);
    ghost var total := n * stride;
    data := new T[n * stride](_ => filler);
    assert data[..] == Fill(total, filler);
    for i := 0 to n
      invariant 0 <= i * stride <= total == data.Length
      invariant Longest(values[..i]) <= stride
      invariant data[..] == Packed(values[..i], stride, filler) + Fill(total - i * stride, filler)
    {
      SlotFits(i, n, stride);
      PackedLength(values[..i], stride, filler);
      PackSlot(data, values, i, i * stride, stride, filler);
    }
    assert values[..n] == values;
  }
}
