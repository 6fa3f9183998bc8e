/** Secure messaging (pico-keys-sdk/src/eac.c) with AES: the in-place wrapping of a response, the
    check and the unwrapping of a command, and the padding they share (section 6.3.3 of
    ISO/IEC 9797-1:2011). Session keys are inside the Crypto value. */
module SecureMessaging {
  import opened Bytes
  import opened Tlv

  const BLOCK: nat := 16
  const USB_BUFFER_SIZE: nat := 2048
  const SSC_LIMIT: nat := 0x1_0000_0000_0000_0000_0000_0000_0000_0000

  datatype Status = Ok | ExecError | WrongLength | WrongData | WrongPadding | VerificationFailed

  // AES-CBC under the session key and the IV derived from a counter value, and the 16-byte CMAC.
  datatype Crypto = Crypto(
    enc: (nat, seq<byte>) -> seq<byte>,
    dec: (nat, seq<byte>) -> seq<byte>,
    mac: seq<byte> -> seq<byte>)

  ghost predicate Lawful(c: Crypto) {
    && (forall n, d :: |d| % BLOCK == 0 ==> |c.enc(n, d)| == |d| && c.dec(n, c.enc(n, d)) == d)
    && (forall n, d :: |c.dec(n, d)| == |d|)
    && (forall d :: |c.mac(d)| == 16)
  }

  // No cipher at all and a constant MAC keep these laws.
  const IDENTITY: Crypto := Crypto((n, d) => d, (n, d) => d, d => Zeros(16))

  lemma IdentityIsLawful()
    ensures Lawful(IDENTITY)
  {
  }

  // ---------------------------------------------------------------- padding

  // What sm_wrap appends to the response and to the MAC input: when the byte 0x80 already ends a
  // block, a whole block of zeros follows it.
  function Pad(m: seq<byte>): (p: seq<byte>)
    ensures |p| % BLOCK == 0 && |m| < |p| <= |m| + 17
  {
    m + [0x80] + Zeros(BLOCK - (|m| + 1) % BLOCK)
  }

  // Padding method 2 of ISO/IEC 9797-1: as few zeros as possible.
  function MinimalPad(m: seq<byte>): (p: seq<byte>)
    ensures |p| % BLOCK == 0 && |m| < |p| <= |m| + BLOCK
  {
    m + [0x80] + Zeros(BLOCK - 1 - |m| % BLOCK)
  }

  lemma PadIsMinimalIff(m: seq<byte>)
    ensures Pad(m) == MinimalPad(m) <==> |m| % BLOCK != BLOCK - 1
  {
    NextInBlock(|m|);
    assert |Pad(m)| == |m| + 1 + BLOCK - (|m| + 1) % BLOCK;
    assert |MinimalPad(m)| == |m| + BLOCK - |m| % BLOCK;
  }

  lemma NextInBlock(n: nat)
    ensures (n + 1) % BLOCK == if n % BLOCK == BLOCK - 1 then 0 else n % BLOCK + 1
  {
  }

  // The last non-zero byte, or -1.
  function LastNonZero(d: seq<byte>): (i: int)
    ensures -1 <= i < |d|
    ensures i >= 0 ==> d[i] != 0
    ensures forall k | i < k < |d| :: d[k] == 0
  {
    if d == [] then -1
    else if d[|d| - 1] != 0 then |d| - 1
    else LastNonZero(d[..|d| - 1])
  }

  // sm_remove_padding: the length without padding, 0 for anything malformed.
  function Unpad(d: seq<byte>): (n: nat)
    ensures d != [] ==> n < |d|
  {
    var i := LastNonZero(d);
    if |d| > U16_MAX || i < 0 || d[i] != 0x80 then 0 else i
  }

  // d is its first n bytes, 0x80, and any number of zeros.
  predicate Padded(d: seq<byte>, n: nat) {
    n < |d| && d[n] == 0x80 && forall k | n < k < |d| :: d[k] == 0
  }

  lemma UnpadIff(d: seq<byte>, n: nat)
    requires |d| <= U16_MAX
    ensures Padded(d, n) ==> Unpad(d) == n
    ensures Unpad(d) == n && n > 0 ==> Padded(d, n)
    ensures (forall k :: !Padded(d, k)) ==> Unpad(d) == 0
  {
    var i := LastNonZero(d);
    if i >= 0 && d[i] == 0x80 {
      assert Padded(d, i);
    }
  }

  lemma PadPadded(m: seq<byte>)
    ensures Padded(Pad(m), |m|) && Pad(m)[..|m|] == m
  {
  }

  method RemovePadding(d: seq<byte>) returns (n: nat)
    ensures n == Unpad(d)
  {
    if |d| == 0 || |d| > U16_MAX {
      return 0;
    }
    var i := |d| - 1;
    while i >= 0 && d[i] == 0
      invariant -1 <= i < |d|
      invariant LastNonZero(d) == LastNonZero(d[..i + 1])
      decreases i
    {
      assert d[..i + 1][..i] == d[..i];
      i := i - 1;
    }
    assert LastNonZero(d[..i + 1]) == i;
    if i < 0 || d[i] != 0x80 {
      return 0;
    }
    n := i;
  }

  // ---------------------------------------------------------------- wrapping a response

  // The counter block, big-endian.
  function BigEndian(n: nat, len: nat): (b: seq<byte>)
    ensures |b| == len
    decreases len
  {
    if len == 0 then [] else BigEndian(n / 256, len - 1) + [n % 256]
  }

  function CounterBlock(ssc: nat): (b: seq<byte>)
    ensures |b| == BLOCK
  {
    BigEndian(ssc, BLOCK)
  }

  // The size sm_wrap predicts before it touches the buffer.
  function EncryptedSize(n: nat): nat {
    n + 1 + BLOCK - (n + 1) % BLOCK
  }

  function PredictedSize(n: nat): nat {
    if n == 0 then 14
    else
      var e := EncryptedSize(n);
      14 + 1 + |FormatLen((e + 1) % 0x1_0000)| + e + 1
  }

  predicate Fits(n: nat) {
    var macInput := BLOCK + PredictedSize(n) - 10;
    && PredictedSize(n) <= USB_BUFFER_SIZE - 20
    && macInput + BLOCK - macInput % BLOCK <= USB_BUFFER_SIZE
  }

  // Responses of up to 1998 bytes can be wrapped.
  lemma FitsIff(n: nat)
    ensures Fits(n) <==> n <= 1998
  {
  }

  // DO87 and DO99.
  function DataObject(c: Crypto, body: seq<byte>, ssc: nat): Item {
    Item(0x87, [1] + c.enc(ssc, Pad(body)))
  }

  function Signable(c: Crypto, body: seq<byte>, sw: nat, ssc: nat): seq<Item>
    requires sw <= U16_MAX
  {
    (if body == [] then [] else [DataObject(c, body, ssc)]) + [Item(0x99, Be16(sw))]
  }

  function ResponseMac(c: Crypto, objects: seq<byte>, ssc: nat): seq<byte> {
    c.mac(Pad(CounterBlock(ssc) + objects))
  }

  // What a wrapped response is, as data objects.
  ghost function Wrapped(c: Crypto, body: seq<byte>, sw: nat, ssc: nat): (items: seq<Item>)
    requires Lawful(c) && Fits(|body|) && sw <= U16_MAX
    ensures forall item <- items :: Writable(item)
  {
    WritableSignable(c, body, sw, ssc);
    var objects := Signable(c, body, sw, ssc);
    objects + [Item(0x8E, ResponseMac(c, Encode(objects), ssc)[..8])]
  }

  lemma WritableSignable(c: Crypto, body: seq<byte>, sw: nat, ssc: nat)
    requires Lawful(c) && Fits(|body|) && sw <= U16_MAX
    ensures forall item <- Signable(c, body, sw, ssc) :: Writable(item)
  {
  }

  // ---------------------------------------------------------------- size and padding are exact

  lemma EncodeTwo(a: Item, b: Item)
    requires Writable(a) && Writable(b)
    ensures Encode([a, b]) == EncodeItem(a) + EncodeItem(b)
  {
    EncodeOne(a);
    EncodeOne(b);
    EncodeAppend([a], [b]);
    assert [a] + [b] == [a, b];
  }

  lemma EncodeOne(a: Item)
    requires Writable(a)
    ensures Encode([a]) == EncodeItem(a)
  {
  }

  lemma EncodeData(value: seq<byte>)
    requires |value| <= U16_MAX
    ensures Writable(Item(0x87, value))
    ensures EncodeItem(Item(0x87, value)) == [0x87] + FormatLen(|value|) + value
  {
  }

  // The sizes of the parts of a wrapped response.
  lemma DataSize(c: Crypto, body: seq<byte>, ssc: nat)
    requires Lawful(c) && Fits(|body|)
    ensures |DataObject(c, body, ssc).value| == EncryptedSize(|body|) + 1 <= 2016
  {
    FitsIff(|body|);
  }

  lemma EncodeSignable(c: Crypto, body: seq<byte>, sw: nat, ssc: nat)
    requires Lawful(c) && Fits(|body|) && sw <= U16_MAX
    ensures Writable(DataObject(c, body, ssc))
    ensures forall item <- Signable(c, body, sw, ssc) :: Writable(item)
    ensures Encode(Signable(c, body, sw, ssc)) ==
              (if body == [] then [] else EncodeItem(DataObject(c, body, ssc))) + EncodeItem(Item(0x99, Be16(sw)))
    ensures |Encode(Signable(c, body, sw, ssc))| == PredictedSize(|body|) - 10
  {
    hide Encode, EncodeItem, FormatLen, Pad, Fits, EncryptedSize;
    WritableSignable(c, body, sw, ssc);
    DataSize(c, body, ssc);
    var data, status := DataObject(c, body, ssc), Item(0x99, Be16(sw));
    StatusSize(sw);
    EncodeData(data.value);
    if body == [] {
      EncodeOne(status);
      assert Signable(c, body, sw, ssc) == [status];
    } else {
      EncodeTwo(data, status);
      assert Signable(c, body, sw, ssc) == [data, status];
    }
  }

  lemma StatusSize(sw: nat)
    requires sw <= U16_MAX
    ensures Writable(Item(0x99, Be16(sw))) && |EncodeItem(Item(0x99, Be16(sw)))| == 4
  {
  }

  lemma EncodeWrapped(c: Crypto, body: seq<byte>, sw: nat, ssc: nat)
    requires Lawful(c) && Fits(|body|) && sw <= U16_MAX
    ensures forall item <- Signable(c, body, sw, ssc) :: Writable(item)
    ensures var objects := Encode(Signable(c, body, sw, ssc));
            Encode(Wrapped(c, body, sw, ssc)) ==
              objects + EncodeItem(Item(0x8E, ResponseMac(c, objects, ssc)[..8]))
  {
    WritableSignable(c, body, sw, ssc);
    var objects := Signable(c, body, sw, ssc);
    var last := Item(0x8E, ResponseMac(c, Encode(objects), ssc)[..8]);
    EncodeAppend(objects, [last]);
    EncodeOne(last);
  }

  // The predicted size is the size of what is produced, for every response length.
  lemma PredictionIsExact(c: Crypto, body: seq<byte>, sw: nat, ssc: nat)
    requires Lawful(c) && Fits(|body|) && sw <= U16_MAX
    ensures |Encode(Wrapped(c, body, sw, ssc))| == PredictedSize(|body|)
  {
    EncodeSignable(c, body, sw, ssc);
    EncodeWrapped(c, body, sw, ssc);
  }

  // Over 16-byte blocks the MAC padding is always the minimal one.
  lemma MacPaddingIsMinimal(c: Crypto, body: seq<byte>, sw: nat, ssc: nat)
    requires Lawful(c) && Fits(|body|) && sw <= U16_MAX
    ensures forall item <- Signable(c, body, sw, ssc) :: Writable(item)
    ensures var m := CounterBlock(ssc) + Encode(Signable(c, body, sw, ssc));
            Pad(m) == MinimalPad(m)
  {
    hide Encode, Signable, Pad, MinimalPad, CounterBlock, PredictedSize, Fits;
    EncodeSignable(c, body, sw, ssc);
    NotBeforeBlockEnd(|body|);
    PadIsMinimalIff(CounterBlock(ssc) + Encode(Signable(c, body, sw, ssc)));
  }

  lemma NotBeforeBlockEnd(n: nat)
    requires Fits(n)
    ensures PredictedSize(n) >= 14 && (BLOCK + PredictedSize(n) - 10) % BLOCK != BLOCK - 1
  {
    FitsIff(n);
  }

  // ---------------------------------------------------------------- checking and opening a command

  // Bits 3 and 4 of the class byte: how secure messaging is indicated.
  function Indicator(cla: byte): nat {
    cla / 4 % 4
  }

  predicate Odd(item: Item) {
    item.tag % 2 == 1
  }

  function SignedItem(item: Item): (b: seq<byte>)
    requires Writable(item)
  {
    [item.tag % 256] + FormatLen(|item.value|) + item.value
  }

  // The bytes of the data objects that the MAC covers: those with an odd tag.
  function Signed(items: seq<Item>): (b: seq<byte>)
    requires forall item <- items :: Writable(item)
    decreases |items|
  {
    if items == [] then []
    else
      var last := items[|items| - 1];
      Signed(items[..|items| - 1]) + if Odd(last) then SignedItem(last) else []
  }

  function LastWith(items: seq<Item>, tag: nat): Option<seq<byte>> {
    if items == [] then None
    else if items[|items| - 1].tag == tag then Some(items[|items| - 1].value)
    else LastWith(items[..|items| - 1], tag)
  }

  // The command header is covered when both indicator bits are set.
  function HeaderPart(header: seq<byte>): (b: seq<byte>)
    requires |header| == 4
    ensures |b| == 0 || |b| == BLOCK
  {
    if Indicator(header[0]) == 3 then header + [0x80] + Zeros(BLOCK - 5) else []
  }

  predicate TooLong(header: seq<byte>, nc: nat)
    requires |header| == 4
  {
    nc / BLOCK * BLOCK + |HeaderPart(header)| > USB_BUFFER_SIZE
  }

  function MacInput(header: seq<byte>, items: seq<Item>, ssc: nat): seq<byte>
    requires |header| == 4 && forall item <- items :: Writable(item)
  {
    CounterBlock(ssc) + HeaderPart(header) + Signed(items)
  }

  // The verdict of sm_verify on the data objects of a command.
  ghost function Checked(c: Crypto, header: seq<byte>, items: seq<Item>, ssc: nat): Status
    requires Lawful(c) && |header| == 4 && forall item <- items :: Writable(item)
  {
    var m := MacInput(header, items, ssc);
    var mac := LastWith(items, 0x8E);
    var covers := exists item <- items :: Odd(item);
    if |m| > USB_BUFFER_SIZE then WrongLength
    else if mac.None? || |mac.value| != 8 then WrongData
    else if covers && |m| == USB_BUFFER_SIZE then WrongLength
    else if c.mac(if covers then MinimalPad(m) else m)[..8] == mac.value then Ok
    else VerificationFailed
  }

  // sm_get_le: the last two bytes of the first DO97.
  function Le(items: seq<Item>): (le: nat)
    ensures le <= U16_MAX
  {
    match FirstWith(items, 0x97)
    case None => 0
    case Some(v) => LowBytes(v)
  }

  function LowBytes(v: seq<byte>): (le: nat)
    ensures le <= U16_MAX
  {
    if v == [] then 0 else if |v| == 1 then v[0] else FromBe16(v[|v| - 2..])
  }

  // One more byte, as the loop of sm_get_le takes it in.
  lemma LowBytesAppend(v: seq<byte>, b: byte)
    ensures LowBytes(v + [b]) == 256 * (LowBytes(v) % 256) + b
  {
    if |v| >= 2 {
      LowByte(v[|v| - 2], v[|v| - 1]);
      assert (v + [b])[|v| - 1..] == [v[|v| - 1], b];
      assert v[|v| - 2..] == [v[|v| - 2], v[|v| - 1]];
    } else if |v| == 1 {
      assert v + [b] == [v[0], b] && (v + [b])[0..] == [v[0], b];
    } else {
      assert v + [b] == [b];
    }
  }

  lemma LowByte(high: byte, low: byte)
    ensures (256 * high as int + low) % 256 == low
  {
  }

  // Where the encrypted body lies: a DO87 (with a padding indicator in front) or a DO85.
  datatype Field = Field(indicator: bool, at: nat, size: nat)

  // The field after one more data object, which ends at `next`; None is an empty DO87.
  function Noted(seen: Option<Field>, item: Item, next: nat): Option<Option<Field>>
    requires |item.value| <= next
  {
    var n := |item.value|;
    if item.tag == 0x87 then if n == 0 then None else Some(Some(Field(true, next - n, n - 1)))
    else if item.tag == 0x85 then Some(Some(Field(seen.Some? && seen.value.indicator, next - n, n)))
    else Some(seen)
  }

  // The last DO87 or DO85; the outer None is an empty DO87.
  function FindBody(d: seq<byte>, at: nat, seen: Option<Field>): (f: Option<Option<Field>>)
    requires seen.Some? ==> seen.value.at + seen.value.size <= |d|
    ensures f.Some? && f.value.Some? ==> f.value.value.at + f.value.value.size <= |d|
    decreases |d| - at
  {
    match Walk(d, at)
    case None => Some(seen)
    case Some((item, next)) =>
      match Noted(seen, item, next)
      case None => None
      case Some(now) => FindBody(d, next, now)
  }

  // The verdict and the command data of sm_unwrap once the MAC is good.
  ghost function Opened(c: Crypto, ssc: nat, buf: seq<byte>, nc: nat): (o: (Status, seq<byte>))
    requires Lawful(c) && nc < |buf|
  {
    var f := FindBody(buf[..nc], 0, None);
    if f.None? then (WrongLength, [])
    else if f.value.None? then (Ok, [])
    else
      var field := f.value.value;
      if field.indicator && buf[field.at] != 1 then (WrongPadding, [])
      else if field.size == 0 || field.size % BLOCK != 0 then (WrongLength, [])
      else
        var from := field.at + if field.indicator then 1 else 0;
        var plain := c.dec(ssc, buf[from..from + field.size]);
        (Ok, plain[..Unpad(plain)])
  }

  // ---------------------------------------------------------------- opening inverts wrapping

  lemma {:induction false} SignedAppend(a: seq<Item>, item: Item)
    requires forall i <- a + [item] :: Writable(i)
    ensures forall i <- a :: Writable(i)
    ensures Signed(a + [item]) == Signed(a) + if Odd(item) then SignedItem(item) else []
  {
  }

  // For one-byte odd tags the MAC covers the objects as they were sent.
  lemma {:induction false} SignedIsEncode(items: seq<Item>)
    requires forall item <- items :: Writable(item) && Odd(item) && item.tag <= 0xff
    ensures Signed(items) == Encode(items)
    decreases |items|
  {
    if items != [] {
      hide Signed, Encode, SignedItem, EncodeItem;
      var init, last := items[..|items| - 1], items[|items| - 1];
      assert items == init + [last];
      SignedAppend(init, last);
      SignedItemIsEncode(last);
      SignedIsEncode(init);
      EncodeAppend(init, [last]);
      EncodeOne(last);
    } else {
      assert Signed(items) == [] == Encode(items);
    }
  }

  lemma SignedItemIsEncode(item: Item)
    requires Writable(item) && item.tag <= 0xff
    ensures SignedItem(item) == EncodeItem(item)
  {
  }

  lemma WrappedMacInput(c: Crypto, header: seq<byte>, body: seq<byte>, sw: nat, ssc: nat)
    requires Lawful(c) && Fits(|body|) && sw <= U16_MAX
    requires |header| == 4 && Indicator(header[0]) != 3
    ensures forall item <- Signable(c, body, sw, ssc) :: Writable(item)
    ensures MacInput(header, Wrapped(c, body, sw, ssc), ssc) == CounterBlock(ssc) + Encode(Signable(c, body, sw, ssc))
    ensures LastWith(Wrapped(c, body, sw, ssc), 0x8E) ==
              Some(ResponseMac(c, Encode(Signable(c, body, sw, ssc)), ssc)[..8])
    ensures exists item <- Wrapped(c, body, sw, ssc) :: Odd(item)
  {
    hide Encode, Signed, CounterBlock, Fits, Lawful, ResponseMac;
    WritableSignable(c, body, sw, ssc);
    var objects := Signable(c, body, sw, ssc);
    var items := Wrapped(c, body, sw, ssc);
    var last := items[|objects|];
    assert items == objects + [last] && last.tag == 0x8E;
    assert Odd(objects[|objects| - 1]) && items[|objects| - 1] == objects[|objects| - 1];
    SignedAppend(objects, last);
    SignedIsEncode(objects);
    assert CounterBlock(ssc) + [] + Encode(objects) == CounterBlock(ssc) + Encode(objects);
  }

  // What sm_wrap produces passes sm_verify at the same counter value: the two build the same MAC input.
  lemma WrappedIsAccepted(c: Crypto, header: seq<byte>, body: seq<byte>, sw: nat, ssc: nat)
    requires Lawful(c) && Fits(|body|) && sw <= U16_MAX
    requires |header| == 4 && Indicator(header[0]) != 3
    ensures Checked(c, header, Wrapped(c, body, sw, ssc), ssc) == Ok
    ensures !TooLong(header, |Encode(Wrapped(c, body, sw, ssc))|)
  {
    FitsIff(|body|);
    PredictionIsExact(c, body, sw, ssc);
    assert PredictedSize(|body|) <= 2028;
    hide Encode, Wrapped, Signable, Pad, MinimalPad, MacInput, LastWith, PredictedSize, Fits;
    EncodeSignable(c, body, sw, ssc);
    MacPaddingIsMinimal(c, body, sw, ssc);
    WrappedMacInput(c, header, body, sw, ssc);
  }

  lemma {:induction false} FindBodySkips(d: seq<byte>, at: nat, seen: Option<Field>)
    requires seen.Some? ==> seen.value.at + seen.value.size <= |d|
    requires forall item <- Items(d, at) :: item.tag != 0x87 && item.tag != 0x85
    ensures FindBody(d, at, seen) == Some(seen)
    decreases |d| - at
  {
    if Walk(d, at).Some? {
      var (item, next) := Walk(d, at).value;
      assert Items(d, at) == [item] + Items(d, next);
      FindBodySkips(d, next, seen);
    }
  }

  lemma WalkData(data: Item, rest: seq<Item>)
    requires Writable(data) && forall item <- rest :: Writable(item)
    ensures var d := EncodeItem(data) + Encode(rest);
            Walk(d, 0) == Some((data, |EncodeItem(data)|)) && Items(d, |EncodeItem(data)|) == rest
  {
    hide *;
    RoundTrip(EncodeItem(data), rest);
    WalkEncoded([], data, Encode(rest));
    assert [] + EncodeItem(data) == EncodeItem(data);
  }

  lemma FirstIsBody(data: Item, rest: seq<Item>)
    requires Writable(data) && data.tag == 0x87 && data.value != []
    requires forall item <- rest :: Writable(item) && item.tag != 0x87 && item.tag != 0x85
    ensures var n := |data.value|;
            FindBody(EncodeItem(data) + Encode(rest), 0, None) == Some(Some(Field(true, 1 + |FormatLen(n)|, n - 1)))
  {
    hide Encode, EncodeItem, FormatLen, Walk, Items;
    var n := |data.value|;
    EncodeData(data.value);
    var d := EncodeItem(data) + Encode(rest);
    var next := |EncodeItem(data)|;
    WalkData(data, rest);
    var field := Field(true, next - n, n - 1);
    FindBodySkips(d, next, Some(field));
  }

  // The data objects of a wrapped response that follow DO87.
  ghost function Trailer(c: Crypto, body: seq<byte>, sw: nat, ssc: nat): (items: seq<Item>)
    requires Lawful(c) && Fits(|body|) && sw <= U16_MAX
    ensures forall item <- items :: Writable(item) && item.tag != 0x87 && item.tag != 0x85
  {
    WritableSignable(c, body, sw, ssc);
    [Item(0x99, Be16(sw)), Item(0x8E, ResponseMac(c, Encode(Signable(c, body, sw, ssc)), ssc)[..8])]
  }

  lemma WrappedParts(c: Crypto, body: seq<byte>, sw: nat, ssc: nat)
    requires Lawful(c) && Fits(|body|) && sw <= U16_MAX
    ensures var rest := Trailer(c, body, sw, ssc);
            Wrapped(c, body, sw, ssc) == if body == [] then rest else [DataObject(c, body, ssc)] + rest
    ensures Writable(DataObject(c, body, ssc))
    ensures body != [] ==>
              Encode(Wrapped(c, body, sw, ssc)) ==
                EncodeItem(DataObject(c, body, ssc)) + Encode(Trailer(c, body, sw, ssc))
  {
  }

  // Walking a wrapped response gives DO87 when there is data, then DO99 and an eight-byte DO8E, and nothing else.
  lemma WrappedWalk(c: Crypto, body: seq<byte>, sw: nat, ssc: nat)
    requires Lawful(c) && Fits(|body|) && sw <= U16_MAX
    ensures var d := Encode(Wrapped(c, body, sw, ssc));
            var items := Items(d, 0);
            var n := if body == [] then 0 else 1;
            && Stop(d, 0) == |d| && |items| == n + 2
            && (body != [] ==> items[0] == DataObject(c, body, ssc) && items[0].tag == 0x87)
            && items[n] == Item(0x99, Be16(sw))
            && items[n + 1].tag == 0x8E && |items[n + 1].value| == 8
  {
    hide Encode, Stop, Fits;
    var items := Wrapped(c, body, sw, ssc);
    RoundTrip([], items);
    assert [] + Encode(items) == Encode(items);
  }

  lemma WrappedBody(c: Crypto, body: seq<byte>, sw: nat, ssc: nat)
    requires Lawful(c) && Fits(|body|) && sw <= U16_MAX
    ensures var n := |DataObject(c, body, ssc).value|;
            n <= U16_MAX && FindBody(Encode(Wrapped(c, body, sw, ssc)), 0, None) ==
              Some(if body == [] then None else Some(Field(true, 1 + |FormatLen(n)|, n - 1)))
  {
    hide Encode, EncodeItem, FormatLen, Wrapped, Fits, FindBody, Trailer, Items;
    WrappedParts(c, body, sw, ssc);
    var rest := Trailer(c, body, sw, ssc);
    if body == [] {
      RoundTrip([], rest);
      assert [] + Encode(rest) == Encode(rest);
      FindBodySkips(Encode(rest), 0, None);
    } else {
      FirstIsBody(DataObject(c, body, ssc), rest);
    }
  }

  // Where DO87 keeps its value.
  lemma BodyInPlace(value: seq<byte>, buf: seq<byte>)
    requires |value| <= U16_MAX && value != []
    requires ([0x87] + FormatLen(|value|) + value) <= buf
    ensures var at := 1 + |FormatLen(|value|)|;
            buf[at] == value[0] && buf[at + 1..at + |value|] == value[1..]
  {
    var head := [0x87] + FormatLen(|value|);
    hide *;
    var code := head + value;
    var at := |head|;
    assert buf[..|code|] == code;
    assert buf[at] == code[at] == value[0];
    forall k | 0 <= k < |value| - 1
      ensures buf[at + 1..at + |value|][k] == value[1..][k]
    {
      assert code[at + 1 + k] == value[1 + k];
    }
  }

  // Unwrapping a wrapped response gives the original response, whatever it contains.
  lemma UnwrapInvertsWrap(c: Crypto, body: seq<byte>, sw: nat, ssc: nat, buf: seq<byte>)
    requires Lawful(c) && Fits(|body|) && sw <= U16_MAX
    requires Encode(Wrapped(c, body, sw, ssc)) < buf
    ensures Opened(c, ssc, buf, |Encode(Wrapped(c, body, sw, ssc))|) == (Ok, body)
  {
    hide Encode, EncodeItem, Wrapped, FindBody, Pad, Unpad, FormatLen, Fits;
    var d := Encode(Wrapped(c, body, sw, ssc));
    assert buf[..|d|] == d;
    WrappedBody(c, body, sw, ssc);
    if body != [] {
      OpensToBody(c, body, sw, ssc, buf);
    }
  }

  lemma CipherOfBody(c: Crypto, body: seq<byte>, ssc: nat)
    requires Lawful(c) && Fits(|body|)
    ensures var sealed := c.enc(ssc, Pad(body));
            && |sealed| == |Pad(body)| == EncryptedSize(|body|) <= 2015
            && c.dec(ssc, sealed) == Pad(body)
            && Unpad(Pad(body)) == |body| && Pad(body)[..|body|] == body
  {
    FitsIff(|body|);
    PadPadded(body);
    UnpadIff(Pad(body), |body|);
  }

  lemma StartsWithData(c: Crypto, body: seq<byte>, sw: nat, ssc: nat, buf: seq<byte>)
    requires Lawful(c) && Fits(|body|) && sw <= U16_MAX && body != []
    requires Encode(Wrapped(c, body, sw, ssc)) < buf
    ensures var value := DataObject(c, body, ssc).value;
            |value| <= U16_MAX && [0x87] + FormatLen(|value|) + value < buf
  {
  }

  lemma OpensToBody(c: Crypto, body: seq<byte>, sw: nat, ssc: nat, buf: seq<byte>)
    requires Lawful(c) && Fits(|body|) && sw <= U16_MAX && body != []
    requires Encode(Wrapped(c, body, sw, ssc)) < buf
    ensures var value := DataObject(c, body, ssc).value;
            && 1 < |value| <= U16_MAX && (|value| - 1) % BLOCK == 0
            && var at := 1 + |FormatLen(|value|)|;
            && at + |value| < |buf| && buf[at] == 1
            && var plain := c.dec(ssc, buf[at + 1..at + |value|]);
            && plain[..Unpad(plain)] == body
  {
    hide Encode, EncodeItem, Wrapped, Pad, Unpad, FormatLen, Fits, EncryptedSize, Lawful;
    CipherOfBody(c, body, ssc);
    var value := DataObject(c, body, ssc).value;
    var sealed := c.enc(ssc, Pad(body));
    assert value == [1] + sealed && value[1..] == sealed;
    StartsWithData(c, body, sw, ssc, buf);
    BodyInPlace(value, buf);
  }
}
