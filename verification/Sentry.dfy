/** Null sentries: a text that equals the sentry is sent as null. */
module Sentry {
  import opened Base
  import opened Unicode
  import opened Batch

  /** The `valueSize` units the pointer form takes for value i. */
  function Block<T>(data: seq<T>, valueSize: nat, i: nat): seq<T>
    requires i * valueSize + valueSize <= |data|
  {
    data[i * valueSize..i * valueSize + valueSize]
  }

  /** Which texts are the sentry, each read up to its first zero. */
  function SameAsSentry<T(==)>(values: seq<seq<T>>, sentry: seq<T>, nul: T): seq<bool> {
    seq(|values|, i requires 0 <= i < |values| => CStr(values[i], nul) == CStr(sentry, nul))
  }

  lemma SlotIsBlock<T>(values: seq<seq<T>>, stride: nat, nul: T, i: nat)
    requires i < |values| && stride == Longest(values) + 1
    ensures |values[i]| < stride
    ensures var p := Packed(values, stride, nul);
      && i * stride + stride <= |p| && Block(p, stride, i) == values[i] + Fill(stride - |values[i]|, nul)
      && nul in Block(p, stride, i) && CStr(Block(p, stride, i), nul) == CStr(values[i], nul)
  {
    SlotFits(i, |values|, stride);
    SlotAt(values, stride, nul, i, i * stride);
    LongestBounds(values, i);
    var v := values[i];
    var block := v + Fill(stride - |v|, nul);
    assert block[|v|] == nul;
    CStrUnique(block, nul, CStr(v, nul));
  }

  /**
   When the pointer form takes value i for the sentry: its text up to the first zero is the
   sentry's, or it fills its whole width without a zero and the sentry goes on from there.
   */
  predicate SentryHit<T(==)>(data: seq<T>, valueSize: nat, i: nat, sentry: seq<T>, nul: T) {
    i * valueSize + valueSize <= |data| && Matches(Block(data, valueSize, i), sentry, nul)
  }

  /** The same for a block that lies in the buffer, written out. */
  lemma SentryHitIff<T>(data: seq<T>, valueSize: nat, i: nat, sentry: seq<T>, nul: T, block: seq<T>, text: seq<T>)
    requires i * valueSize + valueSize <= |data| && block == data[i * valueSize..i * valueSize + valueSize]
    requires text <= sentry && nul !in text && (|text| < |sentry| ==> sentry[|text|] == nul)
    ensures SentryHit(data, valueSize, i, sentry, nul) <==>
      || (text <= block && (|text| < |block| ==> block[|text|] == nul))
      || (nul !in block && block <= text)
  {
    CStrUnique(sentry, nul, text);
    if text <= block && (|text| < |block| ==> block[|text|] == nul) {
      CStrUnique(block, nul, text);
    }
  }

  function BufferFlags<T(==)>(data: seq<T>, valueSize: nat, batch: nat, sentry: seq<T>, nul: T): seq<bool> {
    seq(batch, i requires 0 <= i < batch => SentryHit(data, valueSize, i, sentry, nul))
  }

  /** A hit on a text that is not the sentry needs a value that fills its width; a zero inside rules it out. */
  lemma HitIsSentryIff<T>(data: seq<T>, valueSize: nat, i: nat, sentry: seq<T>, nul: T)
    requires i * valueSize + valueSize <= |data| && SentryHit(data, valueSize, i, sentry, nul)
    ensures CStr(Block(data, valueSize, i), nul) == CStr(sentry, nul)
      <==> (nul in Block(data, valueSize, i) || valueSize == |CStr(sentry, nul)|)
  {
    var block := Block(data, valueSize, i);
    if nul !in block {
      CStrUnique(block, nul, block);
    }
  }

  /** "nu" in a width of two is taken for the sentry "nul". */
  lemma PrefixOfSentryHits()
    ensures SentryHit<Byte>([0x6E, 0x75], 2, 0, [0x6E, 0x75, 0x6C], 0)
    ensures CStr<Byte>([0x6E, 0x75], 0) != CStr<Byte>([0x6E, 0x75, 0x6C], 0)
  {
    CStrUnique<Byte>([0x6E, 0x75, 0x6C], 0, [0x6E, 0x75, 0x6C]);
    CStrUnique<Byte>([0x6E, 0x75], 0, [0x6E, 0x75]);
    var block: seq<Byte> := Block([0x6E, 0x75], 2, 0);
    assert block == [0x6E, 0x75];
  }

  lemma PackedFlagAt<T>(values: seq<seq<T>>, sentry: seq<T>, p: seq<T>, stride: nat, nul: T, i: nat)
    requires stride == Longest(values) + 1 && p == Packed(values, stride, nul) && i < |values|
    ensures SentryHit(p, stride, i, sentry, nul) <==> CStr(values[i], nul) == CStr(sentry, nul)
  {
    SlotIsBlock(values, stride, nul, i);
  }

  /** In a packed buffer every text ends in a zero, so only the sentry itself hits. */
  lemma PackedFlags<T>(values: seq<seq<T>>, sentry: seq<T>, p: seq<T>, stride: nat, nul: T)
    requires stride == Longest(values) + 1 && p == Packed(values, stride, nul)
    ensures BufferFlags(p, stride, |values|, sentry, nul) == SameAsSentry(values, sentry, nul)
  {
    forall i | 0 <= i < |values|
      ensures SentryHit(p, stride, i, sentry, nul) <==> CStr(values[i], nul) == CStr(sentry, nul)
    {
      PackedFlagAt(values, sentry, p, stride, nul, i);
    }
    Same(BufferFlags(p, stride, |values|, sentry, nul), SameAsSentry(values, sentry, nul));
  }

  /** A sentry is read up to its first zero. */
  lemma MatchesCut<T>(l: seq<T>, r: seq<T>, nul: T)
    ensures Matches(l, CStr(r, nul), nul) <==> Matches(l, r, nul)
  {
    CStrUnique(CStr(r, nul), nul, CStr(r, nul));
  }

  // ---------------------------------------------------------------- narrow

  /** The pointer form with a sentry. */
  method BindBufferSentry(stmt: Statement<Byte>, param: nat, data: seq<Byte>, valueSize: nat, batch: nat, sentry: seq<Byte>)
    requires batch * valueSize <= |data| && stmt.nul == 0
    modifies stmt`bindLenOrNull, stmt`bufferLength
    ensures stmt.bufferLength == old(stmt.bufferLength)[param := BufferUnits(data, valueSize, 0)]
    ensures param in stmt.bindLenOrNull && stmt.bindLenOrNull == old(stmt.bindLenOrNull)[param := stmt.bindLenOrNull[param]]
    ensures Marked(stmt.bindLenOrNull[param], TextMarks(batch, Some(BufferFlags(data, valueSize, batch, sentry, 0))), batch)
    ensures |stmt.bindLenOrNull[param]| == Max(batch, 8)
    ensures forall i | 0 <= i < |stmt.bindLenOrNull[param]| ::
      stmt.bindLenOrNull[param][i] == if i < batch && !SentryHit(data, valueSize, i, sentry, 0) then -3 else -1
  {
    stmt.PrepareBind(param, batch);
    ghost var flags := BufferFlags(data, valueSize, batch, sentry, 0);
    ghost var marks := TextMarks(batch, Some(flags));
    for i := 0 to batch
      invariant param in stmt.bindLenOrNull && stmt.bindLenOrNull == old(stmt.bindLenOrNull)[param := stmt.bindLenOrNull[param]]
      invariant Marked(stmt.bindLenOrNull[param], marks, i) && stmt.bufferLength == old(stmt.bufferLength)
    {
      SlotFits(i, batch, valueSize);
      EqualsNarrowIff(Block(data, valueSize, i), CStr(sentry, 0));
      MatchesCut(Block(data, valueSize, i), sentry, 0);
      assert flags[i] == SentryHit(data, valueSize, i, sentry, 0);
      MarkedOn(stmt.bindLenOrNull[param], marks, i);
      if !EqualsNarrow(Block(data, valueSize, i), CStr(sentry, 0)) {
        stmt.bindLenOrNull := stmt.bindLenOrNull[param := stmt.bindLenOrNull[param][i := SQL_NTS]];
      }
    }
    stmt.bufferLength := stmt.bufferLength[param := BufferUnits(data, valueSize, 0)];
  }

  /** The vector form: element i is null exactly when its text up to the first zero is the sentry. */
  method BindStringsSentry(stmt: Statement<Byte>, param: nat, values: seq<seq<Byte>>, sentry: seq<Byte>)
    requires stmt.nul == 0
    modifies stmt
    ensures stmt.binaryData == old(stmt.binaryData)
    ensures param in stmt.bindLenOrNull && stmt.bindLenOrNull == old(stmt.bindLenOrNull)[param := stmt.bindLenOrNull[param]]
    ensures param in stmt.stringData && stmt.stringData == old(stmt.stringData)[param := stmt.stringData[param]]
    ensures param in stmt.bufferLength && stmt.bufferLength == old(stmt.bufferLength)[param := Longest(values) + 1]
    ensures stmt.stringData[param] == Packed(values, stmt.bufferLength[param], 0)
    ensures |stmt.bindLenOrNull[param]| == Max(|values|, 8)
    ensures forall i | 0 <= i < |stmt.bindLenOrNull[param]| ::
      stmt.bindLenOrNull[param][i] == if i < |values| && CStr(values[i], 0) != CStr(sentry, 0) then -3 else -1
    ensures Received(stmt.stringData[param], stmt.bufferLength[param], stmt.bindLenOrNull[param], 0, |values|)
         == Texts(values, Some(SameAsSentry(values, sentry, 0)), 0)
  {
    stmt.PrepareBind(param, |values|);
    var packed, stride := stmt.PackTexts(values);
    stmt.stringData := stmt.stringData[param := packed];
    BindBufferSentry(stmt, param, packed, stride, |values|, sentry);
    PackedFlags(values, sentry, packed, stride, 0);
    TextReceived(values, Some(SameAsSentry(values, sentry, 0)), stmt.bindLenOrNull[param], 0, packed, stride);
  }

  // ---------------------------------------------------------------- wide

  ghost predicate BlockIsPaired(data: seq<Unit16>, valueSize: nat, i: nat) {
    i * valueSize + valueSize <= |data| && Paired(Block(data, valueSize, i))
  }

  /** Whether the wide pointer form can compare at all: every block, and the sentry, is well formed. */
  ghost predicate Comparable(data: seq<Unit16>, valueSize: nat, batch: nat, sentry: seq<Unit16>) {
    forall i | 0 <= i < batch :: BlockIsPaired(data, valueSize, i) && Paired(CStr(sentry, 0))
  }

  /**
   The wide pointer form with a sentry narrows every block and the sentry before it compares.
   It raises exactly when one of them is malformed, and otherwise marks what the narrow form
   would.
   */
  method BindWideBufferSentry(stmt: Statement<Unit16>, param: nat, data: seq<Unit16>, valueSize: nat, batch: nat, sentry: seq<Unit16>)
      returns (r: Outcome<()>)
    requires batch * valueSize <= |data| && stmt.nul == 0
    modifies stmt`bindLenOrNull, stmt`bufferLength
    ensures r.Raised? <==> !Comparable(data, valueSize, batch, sentry)
    ensures stmt.bufferLength == if r.Raised? then old(stmt.bufferLength) else old(stmt.bufferLength)[param := BufferUnits(data, valueSize, 0)]
    ensures param in stmt.bindLenOrNull && stmt.bindLenOrNull == old(stmt.bindLenOrNull)[param := stmt.bindLenOrNull[param]]
    ensures !r.Raised? ==> Marked(stmt.bindLenOrNull[param], TextMarks(batch, Some(BufferFlags(data, valueSize, batch, sentry, 0))), batch)
    ensures !r.Raised? ==>
      && |stmt.bindLenOrNull[param]| == Max(batch, 8)
      && forall i | 0 <= i < |stmt.bindLenOrNull[param]| ::
           stmt.bindLenOrNull[param][i] == if i < batch && !SentryHit(data, valueSize, i, sentry, 0) then -3 else -1
  {
    stmt.PrepareBind(param, batch);
    ghost var flags := BufferFlags(data, valueSize, batch, sentry, 0);
    ghost var marks := TextMarks(batch, Some(flags));
    for i := 0 to batch
      invariant param in stmt.bindLenOrNull && stmt.bindLenOrNull == old(stmt.bindLenOrNull)[param := stmt.bindLenOrNull[param]]
      invariant Marked(stmt.bindLenOrNull[param], marks, i) && stmt.bufferLength == old(stmt.bufferLength)
      invariant Comparable(data, valueSize, i, sentry)
    {
      SlotFits(i, batch, valueSize);
      var eq := EqualsWide(Block(data, valueSize, i), CStr(sentry, 0));
      if eq.Raised? {
        assert !(BlockIsPaired(data, valueSize, i) && Paired(CStr(sentry, 0)));
        return Raised;
      }
      MatchesCut(Block(data, valueSize, i), sentry, 0);
      assert flags[i] == SentryHit(data, valueSize, i, sentry, 0);
      MarkedOn(stmt.bindLenOrNull[param], marks, i);
      if !eq.value {
        stmt.bindLenOrNull := stmt.bindLenOrNull[param := stmt.bindLenOrNull[param][i := SQL_NTS]];
      }
    }
    stmt.bufferLength := stmt.bufferLength[param := BufferUnits(data, valueSize, 0)];
    r := Done(());
  }

  /** The wide vector form: raises exactly when a text, or the sentry it is compared with, is malformed. */
  method BindWideStringsSentry(stmt: Statement<Unit16>, param: nat, values: seq<seq<Unit16>>, sentry: seq<Unit16>)
      returns (r: Outcome<()>)
    requires stmt.nul == 0
    modifies stmt
    ensures r.Raised? <==> exists v :: v in values && !(Paired(v) && Paired(CStr(sentry, 0)))
    ensures stmt.binaryData == old(stmt.binaryData)
    ensures param in stmt.bindLenOrNull && stmt.bindLenOrNull == old(stmt.bindLenOrNull)[param := stmt.bindLenOrNull[param]]
    ensures param in stmt.stringData && stmt.stringData == old(stmt.stringData)[param := stmt.stringData[param]]
    ensures stmt.bufferLength == if r.Raised? then old(stmt.bufferLength) else old(stmt.bufferLength)[param := Longest(values) + 1]
    ensures stmt.stringData[param] == Packed(values, Longest(values) + 1, 0)
    ensures !r.Raised? ==> |stmt.bindLenOrNull[param]| == Max(|values|, 8)
    ensures !r.Raised? ==>
      forall i | 0 <= i < |stmt.bindLenOrNull[param]| ::
        stmt.bindLenOrNull[param][i] == if i < |values| && CStr(values[i], 0) != CStr(sentry, 0) then -3 else -1
    ensures !r.Raised? ==>
      Received(stmt.stringData[param], Longest(values) + 1, stmt.bindLenOrNull[param], 0, |values|)
      == Texts(values, Some(SameAsSentry(values, sentry, 0)), 0)
  {
    stmt.PrepareBind(param, |values|);
    var packed, stride := stmt.PackTexts(values);
    stmt.stringData := stmt.stringData[param := packed];
    PackedComparable(values, packed, stride, sentry);
    r := BindWideBufferSentry(stmt, param, packed, stride, |values|, sentry);
    if !r.Raised? {
      PackedFlags(values, sentry, packed, stride, 0);
      TextReceived(values, Some(SameAsSentry(values, sentry, 0)), stmt.bindLenOrNull[param], 0, packed, stride);
    }
  }

  lemma PackedComparable(values: seq<seq<Unit16>>, p: seq<Unit16>, stride: nat, sentry: seq<Unit16>)
    requires stride == Longest(values) + 1 && p == Packed(values, stride, 0)
    ensures Comparable(p, stride, |values|, sentry) <==> forall v | v in values :: Paired(v) && Paired(CStr(sentry, 0))
  {
    forall i | 0 <= i < |values|
      ensures BlockIsPaired(p, stride, i) <==> Paired(values[i])
    {
      SlotIsBlock(values, stride, 0, i);
      BlockPaired(values[i], stride);
    }
    if Comparable(p, stride, |values|, sentry) {
      forall v | v in values
        ensures Paired(v) && Paired(CStr(sentry, 0))
      {
        var i :| 0 <= i < |values| && values[i] == v;
        assert BlockIsPaired(p, stride, i);
      }
    } else {
      var i :| 0 <= i < |values| && !(BlockIsPaired(p, stride, i) && Paired(CStr(sentry, 0)));
      assert values[i] in values;
    }
  }

  /** Padding with zeros neither mends nor breaks a pair. */
  lemma BlockPaired(v: seq<Unit16>, stride: nat)
    requires |v| < stride
    ensures Paired(v + Fill(stride - |v|, 0)) <==> Paired(v)
  {
    var b := v + Fill(stride - |v|, 0);
    assert forall i | |v| <= i < |b| :: b[i] == 0;
    forall i | 0 <= i < |v|
      ensures PairedAt(b, i) <==> PairedAt(v, i)
    {
      assert i + 1 < |v| ==> b[i + 1] == v[i + 1];
      assert 0 < i ==> b[i - 1] == v[i - 1];
    }
    assert forall i | |v| <= i < |b| :: PairedAt(b, i);
  }
}
