/**
 The driver attributes that SQLDrivers hands back as one text, `Key1=Value1\0Key2=Value2\0`,
 and the loop that splits it.
 */
module Attributes {
  import opened Base

  datatype Attribute = Attribute(key: string, value: string)

  const NUL: char := '\0'

  /** The text the attributes are sent as. */
  function Join(attributes: seq<Attribute>): string {
    if attributes == [] then ""
    else Entry(attributes[0]) + [NUL] + Join(attributes[1..])
  }

  function Entry(a: Attribute): string {
    a.key + "=" + a.value
  }

  /** An attribute that can be sent: the first '=' ends its key and nothing but the end is a NUL. */
  predicate Plain(a: Attribute) {
    '=' !in a.key && NUL !in a.key && NUL !in a.value
  }

  ghost predicate AllPlain(attributes: seq<Attribute>) {
    forall a | a in attributes :: Plain(a)
  }

  /** The text is the attributes and a rest that no NUL ends. */
  ghost predicate Sends(attributes: seq<Attribute>, text: string) {
    AllPlain(attributes) && Join(attributes) <= text && NUL !in text[|Join(attributes)|..]
  }

  /** An entry runs from the start of the text or from behind a NUL up to the next one. */
  predicate IsEntry(text: string, from: nat, to: nat) {
    from <= to < |text| && (from == 0 || text[from - 1] == NUL) && NUL !in text[from..to] && text[to] == NUL
  }

  /** Every entry has an '='. */
  ghost predicate AllKeyed(text: string) {
    forall from: nat, to: nat | IsEntry(text, from, to) :: '=' in text[from..to]
  }

  /** `std::find`. */
  method Find(text: string, from: nat, to: nat, c: char) returns (at: nat)
    requires from <= to <= |text|
    ensures from <= at <= to && c !in text[from..at] && (at < to ==> text[at] == c)
  {
    at := from;
    while at < to && text[at] != c
      invariant from <= at <= to && c !in text[from..at]
    {
      at := at + 1;
    }
  }

  lemma {:induction false} JoinAppend(attributes: seq<Attribute>, a: Attribute)
    ensures Join(attributes + [a]) == Join(attributes) + Entry(a) + [NUL]
  {
    if attributes != [] {
      JoinAppend(attributes[1..], a);
      assert (attributes + [a])[1..] == attributes[1..] + [a];
    }
  }

  /** The text in front of the first of a character decides both parts. */
  lemma SameFirst(a: string, b: string, c: char, x: string, y: string)
    requires c !in a && c !in b && a + [c] + x == b + [c] + y
    ensures a == b && x == y
  {
    var s, t := a + [c] + x, b + [c] + y;
    assert s[|a|] == c && forall k | 0 <= k < |a| :: s[k] == a[k];
    assert t[|b|] == c && forall k | 0 <= k < |b| :: t[k] == b[k];
    assert a == s[..|a|] && b == t[..|b|];
    assert x == s[|a| + 1..] && y == t[|b| + 1..];
  }

  lemma FirstPlain(attributes: seq<Attribute>, text: string)
    requires attributes != [] && Sends(attributes, text)
    ensures Plain(attributes[0]) && NUL !in Entry(attributes[0])
    ensures text == Entry(attributes[0]) + [NUL] + text[|Entry(attributes[0])| + 1..]
    ensures Sends(attributes[1..], text[|Entry(attributes[0])| + 1..])
  {
    assert attributes[0] in attributes;
    var n, rest := |Entry(attributes[0])| + 1, Join(attributes[1..]);
    assert Join(attributes)[..n] == Entry(attributes[0]) + [NUL];
    assert rest == Join(attributes)[n..] == text[n..][..|rest|];
    assert text[n..][|rest|..] == text[|Join(attributes)|..];
  }

  /** What a text sends, written out: one entry after another, and at the end a rest that no NUL ends. */
  lemma SendsIff(attributes: seq<Attribute>, text: string)
    ensures Sends(attributes, text) <==>
      if attributes == [] then '\0' !in text
      else
        var a := attributes[0];
        var eq, end := |a.key|, |a.key| + 1 + |a.value|;
        && end < |text| && text[..eq] == a.key && text[eq] == '=' && text[eq + 1..end] == a.value && text[end] == '\0'
        && '=' !in text[..eq] && '\0' !in text[..end] && Sends(attributes[1..], text[end + 1..])
  {
    if attributes == [] {
      assert text[|Join(attributes)|..] == text;
    } else if Sends(attributes, text) {
      FirstPlain(attributes, text);
      SentFirst(attributes[0], text, text[|Entry(attributes[0])| + 1..]);
    } else {
      var a := attributes[0];
      var eq, end := |a.key|, |a.key| + 1 + |a.value|;
      if end < |text| && text[..eq] == a.key && text[eq] == '=' && text[eq + 1..end] == a.value && text[end] == '\0' && '=' !in text[..eq] && '\0' !in text[..end] {
        FrontIsEntry(a, text, eq, end);
        if Sends(attributes[1..], text[end + 1..]) {
          SendsMore(attributes, text, end);
        }
      }
    }
  }

  lemma SentFirst(a: Attribute, text: string, rest: string)
    requires Plain(a) && text == Entry(a) + [NUL] + rest
    ensures var eq, end := |a.key|, |a.key| + 1 + |a.value|;
      && end < |text| && text[..eq] == a.key && text[eq] == '=' && text[eq + 1..end] == a.value && text[end] == '\0'
      && '=' !in text[..eq] && '\0' !in text[..end] && text[end + 1..] == rest && end == |Entry(a)|
  {
    assert text[..|Entry(a)|] == Entry(a);
    assert '\0' !in Entry(a);
  }

  lemma FrontIsEntry(a: Attribute, text: string, eq: nat, end: nat)
    requires eq == |a.key| && end == eq + 1 + |a.value| < |text|
    requires text[..eq] == a.key && text[eq] == '=' && text[eq + 1..end] == a.value && text[end] == '\0'
    requires '=' !in text[..eq] && '\0' !in text[..end]
    ensures Plain(a) && text[..end + 1] == Entry(a) + [NUL]
  {
    var front := text[..end];
    assert front == Entry(a);
    assert a.key == front[..eq] && a.value == front[eq + 1..];
  }

  lemma SendsMore(attributes: seq<Attribute>, text: string, end: nat)
    requires attributes != [] && Plain(attributes[0]) && end < |text|
    requires text[..end + 1] == Entry(attributes[0]) + [NUL] && Sends(attributes[1..], text[end + 1..])
    ensures Sends(attributes, text)
  {
    var rest := Join(attributes[1..]);
    assert Join(attributes) == text[..end + 1] + rest <= text;
    assert text[|Join(attributes)|..] == text[end + 1..][|rest|..];
  }

  lemma SendsNothingIff(attributes: seq<Attribute>, text: string)
    requires Sends(attributes, text)
    ensures attributes == [] <==> NUL !in text
  {
    if attributes == [] {
      assert text == text[|Join(attributes)|..];
    } else {
      assert text[|Entry(attributes[0])|] == NUL;
    }
  }

  /** A text sends at most one list of attributes. */
  lemma {:induction false} SentOnce(a: seq<Attribute>, b: seq<Attribute>, text: string)
    requires Sends(a, text) && Sends(b, text)
    ensures a == b
  {
    SendsNothingIff(a, text);
    SendsNothingIff(b, text);
    if a == [] {
      return;
    }
    FirstPlain(a, text);
    FirstPlain(b, text);
    var x := text[|Entry(a[0])| + 1..];
    SameFirst(Entry(a[0]), Entry(b[0]), NUL, x, text[|Entry(b[0])| + 1..]);
    SameFirst(a[0].key, b[0].key, '=', a[0].value, b[0].value);
    SentOnce(a[1..], b[1..], x);
  }

  /** The entry that starts before the first NUL is the first one. */
  lemma FirstEntry(entry: string, rest: string, text: string, from: nat, to: nat)
    requires NUL !in entry && text == entry + [NUL] + rest && IsEntry(text, from, to) && from <= |entry|
    ensures text[from..to] == entry
  {
    assert text[|entry|] == NUL && forall k | 0 <= k < |entry| :: text[k] == entry[k];
    assert forall k | from <= k < to :: text[k] == text[from..to][k - from] != NUL;
  }

  /** And the others are the entries of what follows it. */
  lemma LaterEntry(entry: string, rest: string, text: string, from: nat, to: nat)
    requires text == entry + [NUL] + rest && IsEntry(text, from, to) && from > |entry|
    ensures IsEntry(rest, from - |entry| - 1, to - |entry| - 1)
    ensures text[from..to] == rest[from - |entry| - 1..to - |entry| - 1]
  {
    assert forall k | 0 <= k < |rest| :: text[|entry| + 1 + k] == rest[k];
  }

  lemma EntryIsKeyed(a: Attribute)
    ensures '=' in Entry(a)
  {
    assert Entry(a)[|a.key|] == '=';
  }

  /** What can be sent has an '=' in every entry. */
  lemma {:induction false} SentIsKeyed(attributes: seq<Attribute>, text: string, from: nat, to: nat)
    requires Sends(attributes, text) && IsEntry(text, from, to)
    ensures '=' in text[from..to]
    decreases |attributes|, 0
  {
    SendsNothingIff(attributes, text);
    FirstPlain(attributes, text);
    EntryIsKeyed(attributes[0]);
    SplitEntry(attributes[1..], Entry(attributes[0]), text[|Entry(attributes[0])| + 1..], text, from, to);
  }

  /** An entry is the first one, or one of what follows it. */
  lemma {:induction false} SplitEntry(others: seq<Attribute>, entry: string, rest: string, text: string, from: nat, to: nat)
    requires NUL !in entry && '=' in entry && text == entry + [NUL] + rest && IsEntry(text, from, to) && Sends(others, rest)
    ensures '=' in text[from..to]
    decreases |others|, 1
  {
    if from > |entry| {
      LaterEntry(entry, rest, text, from, to);
      SentIsKeyed(others, rest, from - |entry| - 1, to - |entry| - 1);
    } else {
      FirstEntry(entry, rest, text, from, to);
    }
  }

  lemma NothingSent(text: string, from: nat, to: nat)
    requires IsEntry(text, from, to) && '=' !in text[from..to]
    ensures !AllKeyed(text) && forall sent :: !Sends(sent, text)
  {
    forall sent: seq<Attribute>
      ensures !Sends(sent, text)
    {
      if Sends(sent, text) {
        SentIsKeyed(sent, text, from, to);
      }
    }
  }

  lemma OnlySent(attributes: seq<Attribute>, text: string)
    requires Sends(attributes, text)
    ensures AllKeyed(text) && forall sent | Sends(sent, text) :: sent == attributes
  {
    forall sent | Sends(sent, text)
      ensures sent == attributes
    {
      SentOnce(sent, attributes, text);
    }
    forall from: nat, to: nat | IsEntry(text, from, to)
      ensures '=' in text[from..to]
    {
      SentIsKeyed(attributes, text, from, to);
    }
  }

  lemma OneMore(attributes: seq<Attribute>, a: Attribute, text: string, beg: nat, eq: nat, pairEnd: nat)
    requires beg <= eq < pairEnd < |text| && text[eq] == '=' && text[pairEnd] == NUL
    requires a == Attribute(text[beg..eq], text[eq + 1..pairEnd])
    requires '=' !in text[beg..eq] && NUL !in text[beg..pairEnd]
    requires Join(attributes) == text[..beg] && AllPlain(attributes)
    ensures Join(attributes + [a]) == text[..pairEnd + 1] && AllPlain(attributes + [a])
  {
    var entry := text[beg..pairEnd];
    assert forall k | beg <= k < pairEnd :: text[k] == entry[k - beg];
    assert a.key == entry[..eq - beg];
    assert a.value == entry[eq - beg + 1..];
    assert Entry(a) == entry;
    JoinAppend(attributes, a);
    assert text[..pairEnd + 1] == text[..beg] + entry + [NUL];
  }

  /**
   The split. The source's test for a missing '=' compares with the end of the whole text,
   which a find that stops at the entry's own end never returns: an entry without an '=' makes
   a value of a range that ends before it begins, and that raises.
   */
  method Split(text: string) returns (r: Outcome<seq<Attribute>>)
    ensures r.Done? <==> AllKeyed(text)
    ensures r.Done? ==> Sends(r.value, text)
    ensures forall attributes | Sends(attributes, text) :: r == Done(attributes)
  {
    var attributes, beg := [], 0;
    var pairEnd := Find(text, beg, |text|, NUL);
    while pairEnd != |text|
      invariant 0 <= beg <= pairEnd <= |text| && (beg == 0 || text[beg - 1] == NUL)
      invariant NUL !in text[beg..pairEnd] && (pairEnd < |text| ==> text[pairEnd] == NUL)
      invariant Join(attributes) == text[..beg] && AllPlain(attributes)
      decreases |text| - beg
    {
      assert IsEntry(text, beg, pairEnd);
      var eq := Find(text, beg, pairEnd, '=');
      if eq == pairEnd {
        NothingSent(text, beg, pairEnd);
        return Raised;
      }
      var a := Attribute(text[beg..eq], text[eq + 1..pairEnd]);
      OneMore(attributes, a, text, beg, eq, pairEnd);
      attributes, beg := attributes + [a], pairEnd + 1;
      pairEnd := Find(text, beg, |text|, NUL);
    }
    r := Done(attributes);
    OnlySent(attributes, text);
  }
}
