/** What the check and the opening of a command decide (pico-keys-sdk/src/eac.c): which commands are
    accepted, what the MAC binds, and which bodies are refused. */
module SmVerdict {
  import opened Bytes
  import opened Tlv
  import opened SecureMessaging

  // ---------------------------------------------------------------- accepted is genuine

  // The MAC that belongs to a command: over the padded input if any object is covered.
  ghost function ExpectedMac(c: Crypto, header: seq<byte>, items: seq<Item>, ssc: nat): seq<byte>
    requires Lawful(c) && |header| == 4 && forall item <- items :: Writable(item)
  {
    var m := MacInput(header, items, ssc);
    c.mac(if exists item <- items :: Odd(item) then MinimalPad(m) else m)[..8]
  }

  // Object i is the last DO8E.
  predicate LastMacAt(items: seq<Item>, i: nat) {
    i < |items| && items[i].tag == 0x8E && forall j | i < j < |items| :: items[j].tag != 0x8E
  }

  lemma {:induction false} LastWithIff(items: seq<Item>, value: seq<byte>)
    ensures LastWith(items, 0x8E) == Some(value) <==> exists i: nat :: LastMacAt(items, i) && items[i].value == value
    decreases |items|
  {
    if items != [] {
      var n := |items| - 1;
      LastWithIff(items[..n], value);
      if items[n].tag == 0x8E {
        assert LastMacAt(items, n);
      } else {
        if i: nat :| LastMacAt(items[..n], i) && items[..n][i].value == value {
          assert LastMacAt(items, i) && items[i].value == value;
        }
        if i: nat :| LastMacAt(items, i) && items[i].value == value {
          assert LastMacAt(items[..n], i) && items[..n][i].value == value;
        }
      }
    }
  }

  // A command is accepted if and only if its last DO8E is the MAC that belongs to it and the input of the
  // MAC fits its buffer with room for the padding. Whatever else stands there is refused.
  lemma AcceptedIff(c: Crypto, header: seq<byte>, items: seq<Item>, ssc: nat)
    requires Lawful(c) && |header| == 4 && forall item <- items :: Writable(item)
    ensures Checked(c, header, items, ssc) == Ok <==>
              && (exists i: nat :: LastMacAt(items, i) && items[i].value == ExpectedMac(c, header, items, ssc))
              && |MacInput(header, items, ssc)| <= USB_BUFFER_SIZE
              && ((exists item <- items :: Odd(item)) ==> |MacInput(header, items, ssc)| < USB_BUFFER_SIZE)
  {
    hide MacInput, MinimalPad, LastWith, LastMacAt, Writable;
    LastWithIff(items, ExpectedMac(c, header, items, ssc));
  }

  // Without a DO8E of eight bytes the data are wrong; with one that does not belong to the command the
  // verification fails.
  lemma RefusalsIff(c: Crypto, header: seq<byte>, items: seq<Item>, ssc: nat)
    requires Lawful(c) && |header| == 4 && forall item <- items :: Writable(item)
    requires |MacInput(header, items, ssc)| < USB_BUFFER_SIZE
    ensures Checked(c, header, items, ssc) == WrongData <==>
              !exists i: nat :: LastMacAt(items, i) && |items[i].value| == 8
    ensures Checked(c, header, items, ssc) == VerificationFailed <==>
              exists i: nat :: LastMacAt(items, i) && |items[i].value| == 8
                && items[i].value != ExpectedMac(c, header, items, ssc)
  {
    hide MacInput, MinimalPad, LastWith, Writable;
    var mac := LastWith(items, 0x8E);
    if mac.Some? {
      LastWithIff(items, mac.value);
    }
    if i: nat :| LastMacAt(items, i) && |items[i].value| == 8 {
      LastWithIff(items, items[i].value);
    }
  }

  // ---------------------------------------------------------------- what the MAC binds

  // A covered object as it enters the MAC: of a two-byte tag only the low byte.
  datatype Cover = Cover(tag: byte, value: seq<byte>)

  function CoverBytes(x: Cover): (b: seq<byte>)
    requires |x.value| <= U16_MAX
  {
    [x.tag] + FormatLen(|x.value|) + x.value
  }

  predicate Fitting(covers: seq<Cover>) {
    forall x <- covers :: |x.value| <= U16_MAX
  }

  function Covered(items: seq<Item>): (covers: seq<Cover>)
    requires forall item <- items :: Writable(item)
    ensures Fitting(covers)
  {
    if items == [] then []
    else if items[0].tag % 2 == 1 then
      assert Writable(items[0]);
      [Cover(items[0].tag % 256, items[0].value)] + Covered(items[1..])
    else Covered(items[1..])
  }

  function CoversBytes(covers: seq<Cover>): (b: seq<byte>)
    requires Fitting(covers)
  {
    if covers == [] then [] else CoverBytes(covers[0]) + CoversBytes(covers[1..])
  }

  lemma {:induction false} SignedCons(item: Item, rest: seq<Item>)
    requires Writable(item) && forall i <- rest :: Writable(i)
    ensures forall i <- [item] + rest :: Writable(i)
    ensures Signed([item] + rest) == (if Odd(item) then SignedItem(item) else []) + Signed(rest)
    decreases |rest|
  {
    hide SignedItem, Writable;
    if rest == [] {
      assert [item] + rest == [] + [item];
      SignedAppend([], item);
    } else {
      var n := |rest| - 1;
      assert [item] + rest == ([item] + rest[..n]) + [rest[n]] && rest == rest[..n] + [rest[n]];
      SignedCons(item, rest[..n]);
      SignedAppend([item] + rest[..n], rest[n]);
      SignedAppend(rest[..n], rest[n]);
    }
  }

  lemma {:induction false} SignedIsCovers(items: seq<Item>)
    requires forall item <- items :: Writable(item)
    ensures Signed(items) == CoversBytes(Covered(items))
    decreases |items|
  {
    if items != [] {
      var item, rest := items[0], items[1..];
      assert items == [item] + rest;
      SignedCons(item, rest);
      SignedIsCovers(rest);
      hide Signed;
      if Odd(item) {
        assert Covered(items) == [Cover(item.tag % 256, item.value)] + Covered(rest);
        assert Covered(items)[1..] == Covered(rest);
      } else {
        assert [] + Signed(rest) == Signed(rest);
      }
    }
  }

  // An encoded object can be told from what follows it.
  lemma CoverIsPrefixFree(x: Cover, r: seq<byte>, y: Cover, s: seq<byte>)
    requires |x.value| <= U16_MAX && |y.value| <= U16_MAX && CoverBytes(x) + r == CoverBytes(y) + s
    ensures x == y && r == s
  {
    var d := CoverBytes(x) + r;
    StartsWithLen(x, r);
    StartsWithLen(y, s);
    var k := 1 + |FormatLen(|x.value|)|;
    assert x.value == d[k..k + |x.value|] == y.value;
    assert r == d[k + |x.value|..] == s;
  }

  lemma StartsWithLen(x: Cover, r: seq<byte>)
    requires |x.value| <= U16_MAX
    ensures var d := CoverBytes(x) + r;
            var k := 1 + |FormatLen(|x.value|)|;
            && d[0] == x.tag && LenAt(d, 1) == Some((|x.value|, k)) && |d| == k + |x.value| + |r|
            && d[k..k + |x.value|] == x.value && d[k + |x.value|..] == r
  {
    hide FormatLen, LenAt;
    var len := FormatLen(|x.value|);
    var d := CoverBytes(x) + r;
    assert d == [x.tag] + len + (x.value + r);
    HoldsInside([x.tag], len, x.value + r);
    LenAtEncoded(d, 1, |x.value|);
  }

  lemma {:induction false} CoversIff(a: seq<Cover>, b: seq<Cover>)
    requires Fitting(a) && Fitting(b)
    ensures CoversBytes(a) == CoversBytes(b) <==> a == b
    decreases |a|
  {
    hide CoverBytes;
    if a != [] {
      CoverNotEmpty(a[0]);
    }
    if b != [] {
      CoverNotEmpty(b[0]);
    }
    if a != [] && b != [] && CoversBytes(a) == CoversBytes(b) {
      CoverIsPrefixFree(a[0], CoversBytes(a[1..]), b[0], CoversBytes(b[1..]));
      CoversIff(a[1..], b[1..]);
      assert a == [a[0]] + a[1..] && b == [b[0]] + b[1..];
    }
  }

  lemma CoverNotEmpty(x: Cover)
    requires |x.value| <= U16_MAX
    ensures CoverBytes(x) != []
  {
  }

  function FromBigEndian(b: seq<byte>): nat {
    if b == [] then 0 else 256 * FromBigEndian(b[..|b| - 1]) + b[|b| - 1]
  }

  lemma {:induction false} BigEndianValue(n: nat, len: nat)
    requires n < Pow256(len)
    ensures FromBigEndian(BigEndian(n, len)) == n
    decreases len
  {
    if len > 0 {
      var high := BigEndian(n / 256, len - 1);
      assert BigEndian(n, len) == high + [n % 256] && (high + [n % 256])[..len - 1] == high;
      BigEndianValue(n / 256, len - 1);
    }
  }

  function Pow256(n: nat): nat {
    if n == 0 then 1 else 256 * Pow256(n - 1)
  }

  // The counter block is the counter, most significant byte first, so no two counters share one.
  lemma CounterValue(n: nat)
    requires n < SSC_LIMIT
    ensures FromBigEndian(CounterBlock(n)) == n
  {
    assert Pow256(16) == SSC_LIMIT by {
      assert Pow256(4) == 0x1_0000_0000;
      assert Pow256(8) == 0x1_0000_0000_0000_0000;
      assert Pow256(12) == 0x1_0000_0000_0000_0000_0000_0000;
    }
    BigEndianValue(n, BLOCK);
  }

  // What is covered: the counter block, the padded header if both indicator bits are set, and the objects with an
  // odd tag, in order.
  lemma MacInputIs(header: seq<byte>, items: seq<Item>, ssc: nat)
    requires |header| == 4 && forall item <- items :: Writable(item)
    ensures MacInput(header, items, ssc) ==
            CounterBlock(ssc) + (if header[0] / 4 % 4 == 3 then header + [0x80] + Zeros(11) else [])
              + CoversBytes(Covered(items))
  {
    hide CounterBlock, Writable;
    SignedIsCovers(items);
    hide Signed, Covered, CoversBytes;
  }

  // Where both commands cover their header, or neither does, they have the same MAC input if and only if
  // they have the same counter, the same covered header and the same covered objects.
  lemma MacInputIff(h: seq<byte>, a: seq<Item>, m: nat, h': seq<byte>, b: seq<Item>, n: nat)
    requires |h| == |h'| == 4 && (Indicator(h[0]) == 3 <==> Indicator(h'[0]) == 3)
    requires (forall item <- a :: Writable(item)) && (forall item <- b :: Writable(item))
    requires m < SSC_LIMIT && n < SSC_LIMIT
    ensures MacInput(h, a, m) == MacInput(h', b, n) <==>
              m == n && (Indicator(h[0]) == 3 ==> h == h') && Covered(a) == Covered(b)
  {
    hide CounterBlock, Signed, Writable;
    CounterValue(m);
    CounterValue(n);
    SignedIsCovers(a);
    SignedIsCovers(b);
    CoversIff(Covered(a), Covered(b));
    hide Covered, CoversBytes;
    var p, q := HeaderPart(h), HeaderPart(h');
    HeaderPartIff(h, h');
    hide HeaderPart;
    ThreeParts(CounterBlock(m), p, Signed(a), CounterBlock(n), q, Signed(b));
  }

  lemma ThreeParts(a: seq<byte>, b: seq<byte>, c: seq<byte>, a': seq<byte>, b': seq<byte>, c': seq<byte>)
    requires |a| == |a'| && |b| == |b'|
    ensures a + b + c == a' + b' + c' <==> a == a' && b == b' && c == c'
  {
    var x, y := a + b + c, a' + b' + c';
    assert x[..|a|] == a && x[|a|..|a| + |b|] == b && x[|a| + |b|..] == c;
    assert y[..|a|] == a' && y[|a|..|a| + |b|] == b' && y[|a| + |b|..] == c';
  }

  lemma HeaderPartIff(h: seq<byte>, h': seq<byte>)
    requires |h| == |h'| == 4 && (Indicator(h[0]) == 3 <==> Indicator(h'[0]) == 3)
    ensures |HeaderPart(h)| == |HeaderPart(h')|
    ensures HeaderPart(h) == HeaderPart(h') <==> (Indicator(h[0]) == 3 ==> h == h')
  {
    if Indicator(h[0]) == 3 {
      assert HeaderPart(h)[..4] == h && HeaderPart(h')[..4] == h';
    }
  }

  // Padding loses nothing.
  lemma MinimalPadIff(m: seq<byte>, n: seq<byte>)
    ensures MinimalPad(m) == MinimalPad(n) <==> m == n
  {
    var p, q := MinimalPad(m), MinimalPad(n);
    assert p[|m|] == 0x80 && forall k | |m| < k < |p| :: p[k] == 0;
    assert q[|n|] == 0x80 && forall k | |n| < k < |q| :: q[k] == 0;
    if p == q {
      assert |m| == |n|;
      assert p[..|m|] == m && q[..|n|] == n;
    }
  }

  // Two accepted commands with one and the same MAC agree in counter, covered header and covered objects,
  // or two different inputs have the same MAC.
  lemma OneMacOneCommand(c: Crypto, h: seq<byte>, a: seq<Item>, m: nat, h': seq<byte>, b: seq<Item>, n: nat)
    requires Lawful(c) && |h| == |h'| == 4 && (Indicator(h[0]) == 3 <==> Indicator(h'[0]) == 3)
    requires (forall item <- a :: Writable(item)) && (forall item <- b :: Writable(item))
    requires m < SSC_LIMIT && n < SSC_LIMIT
    requires Checked(c, h, a, m) == Ok && Checked(c, h', b, n) == Ok && LastWith(a, 0x8E) == LastWith(b, 0x8E)
    requires (exists item <- a :: Odd(item)) && (exists item <- b :: Odd(item))
    ensures || (m == n && (Indicator(h[0]) == 3 ==> h == h') && Covered(a) == Covered(b))
            || exists x, y :: x != y && c.mac(x)[..8] == c.mac(y)[..8]
  {
    hide MacInput, MinimalPad, Covered, LastWith, Writable;
    MacInputIff(h, a, m, h', b, n);
    var x, y := MacInput(h, a, m), MacInput(h', b, n);
    MinimalPadIff(x, y);
    assert c.mac(MinimalPad(x))[..8] == c.mac(MinimalPad(y))[..8];
  }

  // ---------------------------------------------------------------- which bodies are opened

  predicate NoBody(items: seq<Item>) {
    forall item <- items :: Writable(item) && item.tag != 0x87 && item.tag != 0x85
  }

  // What sm_unwrap makes of the value of a DO87 (with a padding indicator in front) or a DO85.
  ghost function OpenedValue(c: Crypto, ssc: nat, indicator: bool, value: seq<byte>): (Status, seq<byte>)
    requires Lawful(c)
  {
    var text := if indicator && value != [] then value[1..] else value;
    if indicator && value == [] then (WrongLength, [])
    else if indicator && value[0] != 1 then (WrongPadding, [])
    else if text == [] || |text| % BLOCK != 0 then (WrongLength, [])
    else (Ok, c.dec(ssc, text)[..Unpad(c.dec(ssc, text))])
  }

  lemma EncodedField(tag: nat, value: seq<byte>)
    requires |value| <= U16_MAX && (tag == 0x87 || tag == 0x85)
    ensures Writable(Item(tag, value)) && EncodeItem(Item(tag, value)) == [tag as byte] + FormatLen(|value|) + value
  {
  }

  // Where the body of a command that starts with it is found.
  lemma FieldFound(tag: nat, value: seq<byte>, rest: seq<Item>)
    requires |value| <= U16_MAX && (tag == 0x87 || tag == 0x85) && NoBody(rest)
    ensures Writable(Item(tag, value))
    ensures var n := |value|;
            var at := 1 + |FormatLen(n)|;
            FindBody(EncodeItem(Item(tag, value)) + Encode(rest), 0, None) ==
              if tag == 0x85 then Some(Some(Field(false, at, n)))
              else if n == 0 then None
              else Some(Some(Field(true, at, n - 1)))
  {
    hide Encode, EncodeItem, FormatLen, Walk, Items;
    var n := |value|;
    EncodedField(tag, value);
    var item := Item(tag, value);
    var d := EncodeItem(item) + Encode(rest);
    var next := |EncodeItem(item)|;
    WalkData(item, rest);
    if tag == 0x85 {
      FindBodySkips(d, next, Some(Field(false, next - n, n)));
    } else if n > 0 {
      FindBodySkips(d, next, Some(Field(true, next - n, n - 1)));
    }
  }

  // Where its value stands in the buffer.
  lemma ValueInPlace(tag: nat, value: seq<byte>, rest: seq<Item>, buf: seq<byte>)
    requires |value| <= U16_MAX && (tag == 0x87 || tag == 0x85) && NoBody(rest) && Writable(Item(tag, value))
    requires EncodeItem(Item(tag, value)) + Encode(rest) < buf
    ensures var at := 1 + |FormatLen(|value|)|;
            at + |value| <= |buf| && buf[at..at + |value|] == value
  {
    hide Encode, EncodeItem, FormatLen;
    EncodedField(tag, value);
    var head := [tag as byte] + FormatLen(|value|);
    var code := head + value + Encode(rest);
    assert buf[..|code|] == code;
    assert code[|head|..|head| + |value|] == value;
    assert buf[|head|..|head| + |value|] == buf[..|code|][|head|..|head| + |value|];
  }

  // A command whose body is a DO87 or DO85 at its start is opened, or refused, by the value alone.
  lemma OpenedByValue(c: Crypto, ssc: nat, tag: nat, value: seq<byte>, rest: seq<Item>, buf: seq<byte>)
    requires Lawful(c) && |value| <= U16_MAX && (tag == 0x87 || tag == 0x85) && NoBody(rest)
    requires Writable(Item(tag, value)) && EncodeItem(Item(tag, value)) + Encode(rest) < buf
    ensures Opened(c, ssc, buf, |EncodeItem(Item(tag, value)) + Encode(rest)|) ==
            OpenedValue(c, ssc, tag == 0x87, value)
  {
    hide Encode, EncodeItem, FormatLen, FindBody, Unpad, Lawful;
    var d := EncodeItem(Item(tag, value)) + Encode(rest);
    assert buf[..|d|] == d;
    FieldFound(tag, value, rest);
    ValueInPlace(tag, value, rest, buf);
    var at := 1 + |FormatLen(|value|)|;
    if value != [] {
      assert buf[at] == buf[at..at + |value|][0] == value[0];
      assert buf[at + 1..at + |value|] == buf[at..at + |value|][1..] == value[1..];
    }
  }

  // A command without a body is opened to nothing.
  lemma NoBodyIsEmpty(c: Crypto, ssc: nat, items: seq<Item>, buf: seq<byte>)
    requires Lawful(c) && NoBody(items) && Encode(items) < buf
    ensures Opened(c, ssc, buf, |Encode(items)|) == (Ok, [])
  {
    hide Encode, Items, Lawful;
    assert buf[..|Encode(items)|] == Encode(items);
    RoundTrip([], items);
    assert [] + Encode(items) == Encode(items);
    FindBodySkips(Encode(items), 0, None);
  }

  // ---------------------------------------------------------------- the expected length

  // The first DO97 gives the length, in one or two bytes; without one it is 0.
  lemma LeOfCommand(items: seq<Item>, i: nat, le: nat)
    requires i < |items| && le <= U16_MAX && items[i].tag == 0x97 && forall j | 0 <= j < i :: items[j].tag != 0x97
    ensures items[i].value == Be16(le) ==> Le(items) == le
    ensures le < 256 && items[i].value == [le as byte] ==> Le(items) == le
  {
    hide LowBytes;
    FirstAt(items, 0x97, i);
    LowBytesOf(le);
  }

  lemma LowBytesOf(le: nat)
    requires le <= U16_MAX
    ensures LowBytes(Be16(le)) == le && (le < 256 ==> LowBytes([le as byte]) == le)
  {
    assert Be16(le)[0..] == Be16(le);
  }

  lemma {:induction false} FirstAt(items: seq<Item>, tag: nat, i: nat)
    requires i < |items| && items[i].tag == tag && forall j | 0 <= j < i :: items[j].tag != tag
    ensures FirstWith(items, tag) == Some(items[i].value)
    decreases i
  {
    if i > 0 {
      FirstAt(items[1..], tag, i - 1);
    }
  }

  lemma NoLe(items: seq<Item>)
    requires forall item <- items :: item.tag != 0x97
    ensures Le(items) == 0
  {
    FirstWithIsFirst(items, 0x97);
  }
}
