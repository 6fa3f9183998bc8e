/** The BER-TLV walker and length writer (pico-keys-sdk/src/tlv.c; section 8.1 of
    ITU-T X.690), with tags of one or two bytes and lengths up to 65535. */
module Tlv {
  import opened Bytes

  datatype Item = Item(tag: nat, value: seq<byte>)

  // ---------------------------------------------------------------- writing

  predicate LongTag(first: byte) {
    first % 32 == 31
  }

  // Tags the walker can return from their own bytes.
  predicate ValidTag(tag: nat) {
    if tag <= 0xff then !LongTag(tag) else tag <= U16_MAX && LongTag(tag / 256)
  }

  predicate Writable(item: Item) {
    ValidTag(item.tag) && |item.value| <= U16_MAX
  }

  function TagBytes(tag: nat): (b: seq<byte>)
    requires tag <= U16_MAX
  {
    if tag <= 0xff then [tag] else Be16(tag)
  }

  // tlv_format_len
  function FormatLen(len: nat): (b: seq<byte>)
    requires len <= U16_MAX
  {
    if len < 128 then [len] else if len < 256 then [0x81, len] else [0x82] + Be16(len)
  }

  function EncodeItem(item: Item): (b: seq<byte>)
    requires Writable(item)
    ensures |b| >= 2
  {
    TagBytes(item.tag) + FormatLen(|item.value|) + item.value
  }

  function Encode(items: seq<Item>): (b: seq<byte>)
    requires forall item <- items :: Writable(item)
  {
    if items == [] then [] else EncodeItem(items[0]) + Encode(items[1..])
  }

  lemma EncodeAppend(a: seq<Item>, b: seq<Item>)
    requires forall item <- a + b :: Writable(item)
    ensures forall item <- a :: Writable(item)
    ensures forall item <- b :: Writable(item)
    ensures Encode(a + b) == Encode(a) + Encode(b)
  {
    forall item | item in a || item in b
      ensures Writable(item)
    {
      assert item in a + b;
    }
    if a == [] {
      assert a + b == b;
    } else {
      assert (a + b)[1..] == a[1..] + b;
      EncodeAppend(a[1..], b);
    }
  }

  method WriteLen(out: array<byte>, at: nat, len: nat) returns (n: nat)
    requires len <= U16_MAX && at + |FormatLen(len)| <= out.Length
    modifies out
    ensures n == |FormatLen(len)|
    ensures out[..] == Splice(old(out[..]), at, FormatLen(len))
  {
    if len < 128 {
      out[at] := len;
      n := 1;
    } else if len < 256 {
      out[at] := 0x81;
      out[at + 1] := len;
      n := 2;
    } else {
      out[at] := 0x82;
      out[at + 1] := len / 256;
      out[at + 2] := len % 256;
      n := 3;
    }
  }

  // tlv_len_tag works in 16 bits.
  function LenTag(tag: nat, len: nat): nat
    requires len <= U16_MAX
  {
    var ret := (1 + |FormatLen(len)| + len) % 0x1_0000;
    if tag > 0xff then (ret + 1) % 0x1_0000 else ret
  }

  lemma LenTagExactIff(item: Item)
    requires Writable(item)
    ensures LenTag(item.tag, |item.value|) == |EncodeItem(item)| <==> |EncodeItem(item)| <= U16_MAX
  {
  }

  // ---------------------------------------------------------------- walking

  // The tag field at `at`, and where it ends.
  function TagAt(d: seq<byte>, at: nat): (t: Option<(nat, nat)>)
    ensures t.Some? ==> at < t.value.1 <= |d| && ValidTag(t.value.0)
  {
    if at >= |d| then None
    else if !LongTag(d[at]) then Some((d[at], at + 1))
    else if at + 1 >= |d| then None
    else Some((256 * d[at] as int + d[at + 1], at + 2))
  }

  // The length field at `at`, and where it ends. At the very end of the data it is an implicit zero.
  function LenAt(d: seq<byte>, at: nat): (l: Option<(nat, nat)>)
    requires at <= |d|
    ensures l.Some? ==> at <= l.value.1 <= |d| && l.value.0 <= U16_MAX
  {
    if at == |d| then Some((0, at))
    else if d[at] == 0x82 then
      if |d| - (at + 1) < 2 then None else Some((256 * d[at + 1] as int + d[at + 2], at + 3))
    else if d[at] == 0x81 then
      if at + 1 >= |d| then None else Some((d[at + 1], at + 2))
    else Some((d[at], at + 1))
  }

  // tlv_walk: the item at `at` and the cursor after it.
  function Walk(d: seq<byte>, at: nat): (w: Option<(Item, nat)>)
    ensures w.Some? ==> at < w.value.1 <= |d|
    ensures w.Some? ==> |w.value.0.value| <= w.value.1 - at - 1 && Writable(w.value.0)
    ensures w.Some? ==> w.value.0.value == d[w.value.1 - |w.value.0.value|..w.value.1]
  {
    var t := TagAt(d, at);
    if t.None? then None
    else
      var l := LenAt(d, t.value.1);
      if l.None? || l.value.0 > |d| - l.value.1 then None
      else
        var end := l.value.1 + l.value.0;
        Some((Item(t.value.0, d[l.value.1..end]), end))
  }

  // What a caller gets by walking until refused, and where it is refused.
  function Items(d: seq<byte>, at: nat): (items: seq<Item>)
    ensures forall item <- items :: Writable(item)
    decreases |d| - at
  {
    match Walk(d, at)
    case None => []
    case Some((item, next)) => [item] + Items(d, next)
  }

  function Stop(d: seq<byte>, at: nat): (end: nat)
    requires at <= |d|
    ensures at <= end <= |d| && Walk(d, end).None?
    decreases |d| - at
  {
    match Walk(d, at)
    case None => at
    case Some((_, next)) => Stop(d, next)
  }

  // tlv_walk as the code does it, with the cursor as state.
  class Walker {
    const data: seq<byte>
    var p: nat

    constructor (data: seq<byte>)
      ensures this.data == data && p == 0
    {
      this.data := data;
      p := 0;
    }

    method ReadTag() returns (ok: bool, tag: nat)
      modifies this`p
      ensures ok == TagAt(data, old(p)).Some?
      ensures ok ==> Some((tag, p)) == TagAt(data, old(p))
    {
      if p >= |data| {
        return false, 0;
      }
      tag := data[p];
      p := p + 1;
      if tag % 32 == 31 {
        if p >= |data| {
          return false, 0;
        }
        tag := 256 * tag + data[p];
        p := p + 1;
      }
      ok := true;
    }

    method ReadLen() returns (ok: bool, len: nat)
      requires p <= |data|
      modifies this`p
      ensures ok == LenAt(data, old(p)).Some?
      ensures ok ==> Some((len, p)) == LenAt(data, old(p))
    {
      len := 0;
      if p < |data| {
        len := data[p];
        p := p + 1;
      }
      if len == 0x82 {
        if |data| - p < 2 {
          return false, 0;
        }
        len := 256 * data[p] as int + data[p + 1];
        p := p + 2;
      } else if len == 0x81 {
        if p >= |data| {
          return false, 0;
        }
        len := data[p];
        p := p + 1;
      }
      ok := true;
    }

    method Next() returns (found: bool, item: Item)
      modifies this`p
      ensures found == Walk(data, old(p)).Some?
      ensures found ==> Some((item, p)) == Walk(data, old(p))
    {
      item := Item(0, []);
      var hasTag, tag := ReadTag();
      if !hasTag {
        return false, item;
      }
      var hasLen, len := ReadLen();
      if !hasLen || len > |data| - p {
        return false, item;
      }
      item := Item(tag, data[p..p + len]);
      p := p + len;
      found := true;
    }
  }

  function FirstWith(items: seq<Item>, tag: nat): Option<seq<byte>> {
    if items == [] then None
    else if items[0].tag == tag then Some(items[0].value)
    else FirstWith(items[1..], tag)
  }

  lemma {:induction false} FirstWithIsFirst(items: seq<Item>, tag: nat)
    ensures FirstWith(items, tag).None? <==> forall item <- items :: item.tag != tag
    ensures FirstWith(items, tag).Some? ==>
              exists i :: 0 <= i < |items| && items[i] == Item(tag, FirstWith(items, tag).value)
                && forall j | 0 <= j < i :: items[j].tag != tag
  {
    if items != [] {
      FirstWithIsFirst(items[1..], tag);
      if items[0].tag == tag {
        assert items[0] == Item(tag, FirstWith(items, tag).value);
      } else {
        forall item | item in items
          ensures item == items[0] || item in items[1..]
        {
        }
        if FirstWith(items, tag).Some? {
          var i :| 0 <= i < |items[1..]| && items[1..][i] == Item(tag, FirstWith(items[1..], tag).value)
            && forall j | 0 <= j < i :: items[1..][j].tag != tag;
          assert items[i + 1] == Item(tag, FirstWith(items, tag).value);
          forall j | 0 <= j < i + 1
            ensures items[j].tag != tag
          {
            if j > 0 {
              assert items[j] == items[1..][j - 1];
            }
          }
        }
      }
    }
  }

  // tlv_find_tag
  method FindTag(data: seq<byte>, tag: nat) returns (value: Option<seq<byte>>)
    ensures value == FirstWith(Items(data, 0), tag)
  {
    var walker := new Walker(data);
    var found, item := walker.Next();
    ghost var at := 0;
    while found
      invariant at <= |data| && walker.data == data
      invariant FirstWith(Items(data, 0), tag) == FirstWith(Items(data, at), tag)
      invariant found == Walk(data, at).Some?
      invariant found ==> Some((item, walker.p)) == Walk(data, at)
      decreases |data| - at
    {
      assert Items(data, at) == [item] + Items(data, walker.p);
      if tag == item.tag {
        return Some(item.value);
      }
      assert Items(data, at)[1..] == Items(data, walker.p);
      at := walker.p;
      found, item := walker.Next();
    }
    value := None;
  }

  // ---------------------------------------------------------------- the round trip

  // The bytes b stand at `at`.
  predicate Holds(d: seq<byte>, at: nat, b: seq<byte>) {
    at + |b| <= |d| && forall k | 0 <= k < |b| :: d[at + k] == b[k]
  }

  lemma HoldsConcat(d: seq<byte>, at: nat, a: seq<byte>, b: seq<byte>)
    ensures Holds(d, at, a + b) <==> Holds(d, at, a) && Holds(d, at + |a|, b)
  {
    if Holds(d, at, a + b) {
      assert forall k | 0 <= k < |a| :: a[k] == (a + b)[k];
      forall k | 0 <= k < |b|
        ensures d[at + |a| + k] == b[k]
      {
        assert (a + b)[|a| + k] == b[k] && d[at + (|a| + k)] == (a + b)[|a| + k];
      }
    }
    if Holds(d, at, a) && Holds(d, at + |a|, b) {
      forall k | 0 <= k < |a + b|
        ensures d[at + k] == (a + b)[k]
      {
        if k >= |a| {
          assert d[at + |a| + (k - |a|)] == b[k - |a|];
        }
      }
    }
  }

  lemma TagAtIff(d: seq<byte>, at: nat, tag: nat)
    requires ValidTag(tag)
    ensures TagAt(d, at) == Some((tag, at + |TagBytes(tag)|)) <==> Holds(d, at, TagBytes(tag))
    ensures TagAt(d, at).Some? && TagAt(d, at).value.0 == tag ==> Holds(d, at, TagBytes(tag))
  {
    var code := TagBytes(tag);
    if Holds(d, at, code) {
      assert d[at] == code[0];
      if tag > 0xff {
        assert d[at + 1] == code[1];
      }
    }
    if TagAt(d, at).Some? && TagAt(d, at).value.0 == tag && LongTag(d[at]) {
      assert tag / 256 == d[at] && tag % 256 == d[at + 1];
    }
  }

  lemma LenAtEncoded(d: seq<byte>, at: nat, len: nat)
    requires len <= U16_MAX && Holds(d, at, FormatLen(len))
    ensures LenAt(d, at) == Some((len, at + |FormatLen(len)|)) && ShortestLen(d, at)
  {
    var code := FormatLen(len);
    assert d[at] == code[0];
    if |code| >= 2 {
      assert d[at + 1] == code[1];
    }
    if |code| == 3 {
      assert d[at + 2] == code[2];
    }
  }

  lemma HeldSlice(d: seq<byte>, at: nat, b: seq<byte>)
    requires Holds(d, at, b)
    ensures at + |b| <= |d| && d[at..at + |b|] == b
  {
  }

  lemma LenNotEmpty(len: nat)
    requires len <= U16_MAX
    ensures 1 <= |FormatLen(len)| <= 3
  {
  }

  lemma WalkHolding(d: seq<byte>, at: nat, item: Item)
    requires Writable(item) && Holds(d, at, EncodeItem(item))
    ensures Walk(d, at) == Some((item, at + |EncodeItem(item)|)) && Canonical(d, at)
  {
    hide FormatLen, TagBytes, LenAt, TagAt, Holds, ShortestLen;
    var tag, len := TagBytes(item.tag), FormatLen(|item.value|);
    HoldsConcat(d, at, tag + len, item.value);
    HoldsConcat(d, at, tag, len);
    TagAtIff(d, at, item.tag);
    LenAtEncoded(d, at + |tag|, |item.value|);
    HeldSlice(d, at + |tag| + |len|, item.value);
    LenNotEmpty(|item.value|);
    HeldSlice(d, at + |tag|, len);
  }

  lemma WalkEncoded(before: seq<byte>, item: Item, after: seq<byte>)
    requires Writable(item)
    ensures Walk(before + EncodeItem(item) + after, |before|) == Some((item, |before + EncodeItem(item)|))
  {
    hide *;
    assert Holds(before + EncodeItem(item) + after, |before|, EncodeItem(item)) by {
      HoldsInside(before, EncodeItem(item), after);
    }
    WalkHolding(before + EncodeItem(item) + after, |before|, item);
  }

  lemma HoldsInside(before: seq<byte>, b: seq<byte>, after: seq<byte>)
    ensures Holds(before + b + after, |before|, b)
  {
  }

  lemma WalkFirst(before: seq<byte>, items: seq<Item>)
    requires items != [] && forall item <- items :: Writable(item)
    ensures var d := before + Encode(items);
            var start := before + EncodeItem(items[0]);
            && d == start + Encode(items[1..])
            && Items(d, |before|) == [items[0]] + Items(d, |start|)
            && Stop(d, |before|) == Stop(d, |start|)
  {
    hide Walk, EncodeItem;
    WalkEncoded(before, items[0], Encode(items[1..]));
    Assoc(before, EncodeItem(items[0]), Encode(items[1..]));
  }

  // Whatever precedes them, walking encoded items returns exactly those items and then stops at the end.
  lemma {:induction false} RoundTrip(before: seq<byte>, items: seq<Item>)
    requires forall item <- items :: Writable(item)
    ensures Items(before + Encode(items), |before|) == items
    ensures Stop(before + Encode(items), |before|) == |before + Encode(items)|
    decreases |items|
  {
    if items == [] {
      NothingEncoded(before);
    } else {
      hide *;
      WalkFirst(before, items);
      RoundTrip(before + EncodeItem(items[0]), items[1..]);
      assert [items[0]] + items[1..] == items;
    }
  }

  lemma NothingEncoded(before: seq<byte>)
    ensures Items(before + Encode([]), |before|) == []
    ensures Stop(before + Encode([]), |before|) == |before + Encode([])|
  {
  }

  lemma EncodedFindTag(items: seq<Item>, tag: nat)
    requires forall item <- items :: Writable(item)
    ensures FirstWith(Items(Encode(items), 0), tag) == FirstWith(items, tag)
  {
    RoundTrip([], items);
    assert [] + Encode(items) == Encode(items);
  }

  // ---------------------------------------------------------------- the converse

  // The length field at `at` is the one the writer produces.
  predicate ShortestLen(d: seq<byte>, at: nat)
    requires at < |d| && LenAt(d, at).Some?
  {
    if d[at] == 0x81 then d[at + 1] >= 128
    else if d[at] == 0x82 then d[at + 1] != 0
    else d[at] < 128
  }

  // The item at `at` has a length field, and the shortest one.
  predicate Canonical(d: seq<byte>, at: nat)
    requires Walk(d, at).Some?
  {
    var lenAt := TagAt(d, at).value.1;
    lenAt < |d| && ShortestLen(d, lenAt)
  }

  // A length field is what the writer produces exactly when it is the shortest one.
  lemma ShortestLenIff(d: seq<byte>, at: nat)
    requires at < |d| && LenAt(d, at).Some?
    ensures Holds(d, at, FormatLen(LenAt(d, at).value.0)) <==> ShortestLen(d, at)
  {
    var (len, end) := LenAt(d, at).value;
    if Holds(d, at, FormatLen(len)) {
      LenAtEncoded(d, at, len);
    } else {
      assert !ShortestLen(d, at);
    }
  }

  // What is walked is written back unchanged exactly when its length field was canonical.
  lemma WalkThenEncodeIff(d: seq<byte>, at: nat)
    requires Walk(d, at).Some?
    ensures var (item, next) := Walk(d, at).value;
            Holds(d, at, EncodeItem(item)) <==> Canonical(d, at)
    ensures var (item, next) := Walk(d, at).value;
            Canonical(d, at) ==> EncodeItem(item) == d[at..next]
  {
    var (item, next) := Walk(d, at).value;
    if Holds(d, at, EncodeItem(item)) {
      WalkHolding(d, at, item);
    } else if Canonical(d, at) {
      CanonicalHolds(d, at);
    }
  }

  lemma CanonicalHolds(d: seq<byte>, at: nat)
    requires Walk(d, at).Some? && Canonical(d, at)
    ensures Holds(d, at, EncodeItem(Walk(d, at).value.0))
  {
    hide FormatLen, TagBytes, TagAt, LenAt, ShortestLen;
    var (item, next) := Walk(d, at).value;
    var tag, len := TagBytes(item.tag), FormatLen(|item.value|);
    TagAtIff(d, at, item.tag);
    var lenAt := TagAt(d, at).value.1;
    assert lenAt == at + |tag|;
    ShortestLenIff(d, lenAt);
    LenAtEncoded(d, lenAt, |item.value|);
    assert Holds(d, lenAt + |len|, item.value);
    HoldsConcat(d, at, tag, len);
    HoldsConcat(d, at, tag + len, item.value);
  }

  predicate AllCanonical(d: seq<byte>, at: nat)
    decreases |d| - at
  {
    match Walk(d, at)
    case None => true
    case Some((_, next)) => Canonical(d, at) && AllCanonical(d, next)
  }

  lemma UnfoldWalk(d: seq<byte>, at: nat)
    requires Walk(d, at).Some?
    ensures var (item, next) := Walk(d, at).value;
            && Encode(Items(d, at)) == EncodeItem(item) + Encode(Items(d, next))
            && Stop(d, at) == Stop(d, next)
            && AllCanonical(d, at) == (Canonical(d, at) && AllCanonical(d, next))
  {
  }

  // Writing back everything that was walked reproduces the data walked over exactly when
  // every length field in it was canonical.
  lemma {:induction false} ReencodeIff(d: seq<byte>, at: nat)
    requires at <= |d|
    ensures Holds(d, at, Encode(Items(d, at))) <==> AllCanonical(d, at)
    decreases |d| - at
  {
    hide Walk, EncodeItem, Canonical;
    if Walk(d, at).Some? {
      var (item, next) := Walk(d, at).value;
      UnfoldWalk(d, at);
      WalkThenEncodeIff(d, at);
      HoldsConcat(d, at, EncodeItem(item), Encode(Items(d, next)));
      if Canonical(d, at) {
        assert at + |EncodeItem(item)| == next;
        ReencodeIff(d, next);
      }
    }
  }

  lemma {:induction false} CanonicalReencodes(d: seq<byte>, at: nat)
    requires at <= |d| && AllCanonical(d, at)
    ensures Encode(Items(d, at)) == d[at..Stop(d, at)]
    decreases |d| - at
  {
    if Walk(d, at).Some? {
      hide *;
      var (_, next) := Walk(d, at).value;
      UnfoldWalk(d, at);
      WalkThenEncodeIff(d, at);
      CanonicalReencodes(d, next);
      Joined(d, at, next, Stop(d, next));
    }
  }
}
