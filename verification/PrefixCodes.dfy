/**
 Texts spelled code point by code point in a prefix-free encoding form. Everything the
 codec promises about whole strings follows from prefix-freeness, so it is proved here once
 for all three forms.
 */
module PrefixCodes {
  import opened Base
  import opened Unicode

  ghost function Spell<U>(enc: Scalar -> seq<U>, cps: seq<Scalar>): seq<U> {
    if cps == [] then [] else enc(cps[0]) + Spell(enc, cps[1..])
  }

  ghost predicate PrefixFree<U(!new)>(enc: Scalar -> seq<U>) {
    && (forall a: Scalar :: enc(a) != [])
    && (forall a: Scalar, b: Scalar :: enc(a) <= enc(b) ==> a == b)
  }

  ghost predicate Spellable<U>(enc: Scalar -> seq<U>, s: seq<U>) {
    exists cps :: Spell(enc, cps) == s
  }

  /** The code points a text spells, when it spells any. */
  ghost function Decode<U>(enc: Scalar -> seq<U>, s: seq<U>): Option<seq<Scalar>> {
    if Spellable(enc, s) then
      var cps :| Spell(enc, cps) == s; Some(cps)
    else None
  }

  /** The same code points spelled in another form: what both `convert` loops have to compute. */
  ghost function Transcode<U, V>(from: Scalar -> seq<U>, to: Scalar -> seq<V>, s: seq<U>): Option<seq<V>> {
    match Decode(from, s)
    case None => None
    case Some(cps) => Some(Spell(to, cps))
  }

  lemma {:induction false} SpellConcat<U>(enc: Scalar -> seq<U>, a: seq<Scalar>, b: seq<Scalar>)
    ensures Spell(enc, a + b) == Spell(enc, a) + Spell(enc, b)
  {
    if a == [] {
      assert a + b == b;
    } else {
      SpellConcat(enc, a[1..], b);
      assert (a + b)[1..] == a[1..] + b;
    }
  }

  lemma SpellOne<U>(enc: Scalar -> seq<U>, cp: Scalar)
    ensures Spell(enc, [cp]) == enc(cp)
  {
    assert Spell(enc, [cp]) == enc(cp) + Spell(enc, []);
  }

  /** Two code points whose spellings both begin one text are the same code point. */
  lemma SameHead<U(!new)>(enc: Scalar -> seq<U>, a: Scalar, b: Scalar, s: seq<U>)
    requires PrefixFree(enc) && enc(a) <= s && enc(b) <= s
    ensures a == b
  {
    assert enc(a) <= enc(b) || enc(b) <= enc(a);
  }

  lemma {:induction false} SpellInjective<U(!new)>(enc: Scalar -> seq<U>, a: seq<Scalar>, b: seq<Scalar>)
    requires PrefixFree(enc) && Spell(enc, a) == Spell(enc, b)
    ensures a == b
  {
    if a != [] && b != [] {
      SameHead(enc, a[0], b[0], Spell(enc, a));
      var k := |enc(a[0])|;
      assert Spell(enc, a[1..]) == Spell(enc, a)[k..] == Spell(enc, b[1..]);
      SpellInjective(enc, a[1..], b[1..]);
    }
  }

  /** One spelling is the beginning of another exactly when its characters are. */
  lemma {:induction false} SpellPrefixIff<U(!new)>(enc: Scalar -> seq<U>, a: seq<Scalar>, b: seq<Scalar>)
    requires PrefixFree(enc)
    ensures Spell(enc, a) <= Spell(enc, b) <==> a <= b
  {
    if a != [] && b != [] {
      var sa, sb, k := Spell(enc, a), Spell(enc, b), |enc(a[0])|;
      if a[0] == b[0] {
        SpellPrefixIff(enc, a[1..], b[1..]);
        assert sa == enc(a[0]) + Spell(enc, a[1..]) && sb == enc(a[0]) + Spell(enc, b[1..]);
        assert sa <= sb <==> sa[k..] <= sb[k..];
        assert a <= b <==> a[1..] <= b[1..];
      } else if sa <= sb {
        SameHead(enc, a[0], b[0], sb);
      }
    }
  }

  /** A spelled beginning can be cut off: the whole is spellable exactly when the rest is. */
  lemma {:induction false} Peel<U(!new)>(enc: Scalar -> seq<U>, a: seq<Scalar>, t: seq<U>)
    requires PrefixFree(enc)
    ensures Spellable(enc, Spell(enc, a) + t) <==> Spellable(enc, t)
  {
    var s := Spell(enc, a) + t;
    if Spellable(enc, t) {
      var cps :| Spell(enc, cps) == t;
      SpellConcat(enc, a, cps);
    }
    if Spellable(enc, s) {
      if a == [] {
        assert s == t;
      } else {
        var cps :| Spell(enc, cps) == s;
        assert s == enc(a[0]) + (Spell(enc, a[1..]) + t);
        SameHead(enc, a[0], cps[0], s);
        assert Spell(enc, cps[1..]) == Spell(enc, a[1..]) + t by {
          assert s[|enc(a[0])|..] == Spell(enc, cps[1..]);
        }
        Peel(enc, a[1..], t);
      }
    }
  }

  /** One character cut off the front. */
  lemma PeelOne<U(!new)>(enc: Scalar -> seq<U>, s: seq<U>, k: nat, cp: Scalar)
    requires PrefixFree(enc) && k <= |s| && s[..k] == enc(cp)
    ensures Spellable(enc, s) <==> Spellable(enc, s[k..])
  {
    SpellOne(enc, cp);
    assert s == Spell(enc, [cp]) + s[k..];
    Peel(enc, [cp], s[k..]);
  }

  /** A non-empty spellable text begins with a spelled character. */
  lemma FirstOf<U>(enc: Scalar -> seq<U>, s: seq<U>) returns (k: nat, cp: Scalar)
    requires Spellable(enc, s) && s != []
    ensures k <= |s| && s[..k] == enc(cp)
  {
    var cps :| Spell(enc, cps) == s;
    k, cp := |enc(cps[0])|, cps[0];
  }

  lemma EmptySpellable<U>(enc: Scalar -> seq<U>)
    ensures Spellable(enc, [])
  {
    assert Spell(enc, []) == [];
  }

  /** A text that no spelling begins is not spellable. */
  lemma Stuck<U(!new)>(enc: Scalar -> seq<U>, t: seq<U>)
    requires t != [] && forall cp: Scalar :: !(enc(cp) <= t)
    ensures !Spellable(enc, t)
  {
    forall cps: seq<Scalar>
      ensures Spell(enc, cps) != t
    {
      if cps != [] {
        assert !(enc(cps[0]) <= t) && enc(cps[0]) <= Spell(enc, cps);
      }
    }
  }

  // ---------------------------------------------------------------- one turn of a conversion loop

  lemma StepOne<U>(enc: Scalar -> seq<U>, s: seq<U>, beg: nat, next: nat, cps: seq<Scalar>, cp: Scalar)
    requires beg <= next <= |s| && s[..beg] == Spell(enc, cps) && s[beg..next] == enc(cp)
    ensures s[..next] == Spell(enc, cps + [cp])
  {
    SpellConcat(enc, cps, [cp]);
    SpellOne(enc, cp);
    assert s[..next] == s[..beg] + s[beg..next];
  }

  lemma StopHere<U(!new)>(enc: Scalar -> seq<U>, s: seq<U>, beg: nat, cps: seq<Scalar>)
    requires PrefixFree(enc) && beg < |s| && s[..beg] == Spell(enc, cps)
    requires forall cp: Scalar :: !(enc(cp) <= s[beg..])
    ensures !Spellable(enc, s)
  {
    Stuck(enc, s[beg..]);
    assert s == Spell(enc, cps) + s[beg..];
    Peel(enc, cps, s[beg..]);
  }

  // ---------------------------------------------------------------- the theorems

  /** Transcoding is the relation "spells the same code points", so it has one answer. */
  lemma TranscodeIs<U(!new), V>(from: Scalar -> seq<U>, to: Scalar -> seq<V>, cps: seq<Scalar>)
    requires PrefixFree(from)
    ensures Transcode(from, to, Spell(from, cps)) == Some(Spell(to, cps))
  {
    var d := Decode(from, Spell(from, cps));
    SpellInjective(from, d.value, cps);
  }

  /** There and back gives the original text. */
  lemma RoundTrip<U(!new), V(!new)>(from: Scalar -> seq<U>, to: Scalar -> seq<V>, s: seq<U>)
    requires PrefixFree(to) && Transcode(from, to, s).Some?
    ensures Transcode(to, from, Transcode(from, to, s).value) == Some(s)
  {
    TranscodeIs(to, from, Decode(from, s).value);
  }

  /** Two texts that transcode to the same text are the same text. */
  lemma TranscodeInjective<U(!new), V(!new)>(from: Scalar -> seq<U>, to: Scalar -> seq<V>, s: seq<U>, t: seq<U>)
    requires PrefixFree(to) && Transcode(from, to, s).Some?
    requires Transcode(from, to, s) == Transcode(from, to, t)
    ensures s == t
  {
    RoundTrip(from, to, s);
    RoundTrip(from, to, t);
  }

  /** On well-formed beginnings, transcoding distributes over concatenation. */
  lemma TranscodeConcat<U(!new), V>(from: Scalar -> seq<U>, to: Scalar -> seq<V>, s: seq<U>, t: seq<U>)
    requires PrefixFree(from) && Transcode(from, to, s).Some?
    ensures Transcode(from, to, s + t).Some? <==> Transcode(from, to, t).Some?
    ensures Transcode(from, to, t).Some? ==>
      Transcode(from, to, s + t).value == Transcode(from, to, s).value + Transcode(from, to, t).value
  {
    var a := Decode(from, s).value;
    Peel(from, a, t);
    if Transcode(from, to, t).Some? {
      var b := Decode(from, t).value;
      SpellConcat(from, a, b);
      SpellConcat(to, a, b);
      TranscodeIs(from, to, a + b);
    }
  }
}
