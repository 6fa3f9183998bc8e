/** Secure messaging in its buffers (pico-keys-sdk/src/eac.c): the response is wrapped and the
    command unwrapped where they stand. */
module SmChannel {
  import opened Bytes
  import opened Tlv
  import opened SecureMessaging

  class Channel {
    const c: Crypto
    const res: array<byte>   // the response; its first `size` bytes are the body
    const cmd: array<byte>   // the command; its first `nc` bytes are the data
    var size: nat
    var nc: nat
    var sw: nat
    var ne: nat
    var ssc: nat
    var active: bool

    ghost predicate Valid()
      reads this, res, cmd
    {
      && Lawful(c) && res.Length >= USB_BUFFER_SIZE - 12 && res != cmd
      && nc < cmd.Length && nc <= U16_MAX
      && size <= res.Length && size <= U16_MAX && sw <= U16_MAX
    }

    ghost function Body(): seq<byte>
      reads this, res
      requires size <= res.Length
    {
      res[..size]
    }

    constructor (c: Crypto, res: array<byte>, cmd: array<byte>)
      requires Lawful(c) && res.Length >= USB_BUFFER_SIZE - 12 && res != cmd && cmd.Length > 0
      ensures Valid() && this.c == c && this.res == res && this.cmd == cmd
      ensures size == 0 && nc == 0 && ssc == 0 && active
    {
      this.c := c;
      this.res := res;
      this.cmd := cmd;
      size := 0;
      nc := 0;
      sw := 0;
      ne := 0;
      ssc := 0;
      active := true;
    }

    method AppendByte(b: byte)
      requires size < res.Length
      modifies this`size, res
      ensures size == old(size) + 1 && Body() == old(Body()) + [b]
    {
      res[size] := b;
      size := size + 1;
    }

    // Pad the body and encrypt it where it stands.
    method EncryptBody()
      requires Valid() && Fits(size)
      modifies this`size, res
      ensures size == EncryptedSize(old(size)) <= res.Length
      ensures Body() == c.enc(ssc, Pad(old(Body())))
    {
      ghost var body := Body();
      FitsIff(size);
      AppendByte(0x80);
      var zeros := BLOCK - size % BLOCK;
      Copy(res, size, Zeros(zeros));
      assert res[..size] == body + [0x80];
      size := size + zeros;
      assert res[..size] == Pad(body);
      Copy(res, 0, c.enc(ssc, res[..size]));
    }

    // memmove the body k bytes up.
    method OpenGap(k: nat)
      requires size + k <= res.Length
      modifies this`size, res
      ensures size == old(size) + k && res[k..size] == old(Body())
    {
      MoveUp(res, k, 0, size);
      size := size + k;
    }

    method WriteHeader(n: nat)
      requires 1 <= n <= U16_MAX && size + 4 <= res.Length && size == n
      modifies this`size, res
      ensures size <= res.Length
      ensures Writable(Item(0x87, old(Body()))) && Body() == EncodeItem(Item(0x87, old(Body())))
    {
      ghost var value := Body();
      EncodeData(value);
      if n < 128 {
        OpenGap(2);
        res[0], res[1] := 0x87, n;
        assert res[..2] == [0x87, n];
      } else if n < 256 {
        OpenGap(3);
        res[0], res[1], res[2] := 0x87, 0x81, n;
        assert res[..3] == [0x87, 0x81, n];
      } else {
        OpenGap(4);
        res[0], res[1], res[2], res[3] := 0x87, 0x82, n / 256, n % 256;
        assert res[..4] == [0x87, 0x82, n / 256, n % 256];
      }
      ghost var k := 1 + |FormatLen(n)|;
      assert res[..k] == [0x87] + FormatLen(n);
      assert res[k..size] == value;
      assert Body() == res[..k] + res[k..size];
    }

    // Put the padding indicator, the length and the tag in front of the size bytes already there.
    method PrefixHeader(ghost e: seq<byte>)
      requires size == |e| < USB_BUFFER_SIZE - 20 && size + 5 <= res.Length && Body() == e
      modifies this`size, res
      ensures size <= res.Length
      ensures Writable(Item(0x87, [1] + e)) && Body() == EncodeItem(Item(0x87, [1] + e))
    {
      hide EncodeItem, FormatLen, Writable;
      OpenGap(1);
      res[0] := 1;
      assert res[..size] == [res[0]] + res[1..size];
      WriteHeader(size);
    }

    method AppendStatus()
      requires size + 4 <= res.Length && sw <= U16_MAX
      modifies this`size, res
      ensures size == old(size) + 4 && Body() == old(Body()) + EncodeItem(Item(0x99, Be16(sw)))
    {
      AppendByte(0x99);
      AppendByte(2);
      AppendByte(sw / 256);
      AppendByte(sw % 256);
    }

    // The MAC of the counter and the objects so far, computed in a cleared buffer.
    method ComputeMac() returns (mac: seq<byte>)
      requires size <= res.Length && BLOCK + size + 17 <= USB_BUFFER_SIZE
      ensures mac == ResponseMac(c, Body(), ssc)
    {
      hide Splice, CounterBlock;
      var input := new byte[USB_BUFFER_SIZE](_ => 0);
      assert input[..] == Zeros(USB_BUFFER_SIZE);
      Copy(input, 0, CounterBlock(ssc));
      var len := BLOCK;
      Copy(input, len, res[..size]);
      len := len + size;
      input[len] := 0x80;
      len := len + 1;
      len := len + (BLOCK - len % BLOCK);
      PaddedInput(CounterBlock(ssc), res[..size]);
      mac := c.mac(input[..len]);
    }

    // DO8E: all 16 bytes of the MAC are written, 8 of them count.
    method AppendMac(mac: seq<byte>)
      requires |mac| == 16 && size + 18 <= res.Length
      modifies this`size, res
      ensures size == old(size) + 10 && Body() == old(Body()) + EncodeItem(Item(0x8E, mac[..8]))
    {
      hide Splice, EncodeItem;
      ghost var was := res[..];
      Copy(res, size + 2, mac);
      res[size] := 0x8E;
      res[size + 1] := 8;
      assert res[..] == Splice(was, size + 2, mac)[size := 0x8E][size + 1 := 8];
      MacObject(was, size, mac);
      size := size + 10;
    }

    // sm_wrap
    method Wrap(cla: byte) returns (r: Status)
      requires Valid()
      modifies this`size, this`sw, this`ne, this`ssc, res
      ensures Valid()
      ensures r == (if Indicator(cla) == 0 then Ok
                    else if !active then ExecError
                    else if !Fits(old(size)) then WrongLength
                    else if old(ssc) + 1 >= SSC_LIMIT then ExecError
                    else Ok)
      ensures r == Ok && Indicator(cla) != 0 ==>
                && sw == 0x9000 && ssc == old(ssc) + 1
                && size == PredictedSize(old(size))
                && Body() == Encode(Wrapped(c, old(Body()), old(sw), ssc))
                && ne == if old(ne) > 0 then size else 0
      ensures r != Ok || Indicator(cla) == 0 ==>
                && unchanged(res) && size == old(size) && sw == old(sw) && ne == old(ne)
                && ssc == old(ssc) + if Indicator(cla) != 0 && active && Fits(size) then 1 else 0
    {
      hide Encode, Wrapped, Fits, PredictedSize, Lawful, Indicator;
      if Indicator(cla) == 0 {
        return Ok;
      }
      if !active {
        return ExecError;
      }
      if !Fits(size) {
        return WrongLength;
      }
      ssc := ssc + 1;
      if ssc >= SSC_LIMIT {
        return ExecError;
      }
      FillBody();
      if ne > 0 {
        ne := size;
      }
      sw := 0x9000;
      r := Ok;
    }

    // The part of sm_wrap that rewrites the response.
    method FillBody()
      requires Valid() && Fits(size)
      modifies this`size, res
      ensures Valid() && size == PredictedSize(old(size))
      ensures Body() == Encode(Wrapped(c, old(Body()), sw, ssc))
    {
      ghost var body := Body();
      WriteObjects();
      ghost var objects := Signable(c, body, sw, ssc);
      var mac := ComputeMac();
      EncodeWrapped(c, body, sw, ssc);
      hide Encode, Wrapped, Signable, EncodeItem, Pad, FormatLen;
      AppendMac(mac);
    }

    method WriteObjects()
      requires Valid() && Fits(size)
      modifies this`size, res
      ensures Valid() && size == PredictedSize(old(size)) - 10 <= 2009
      ensures forall item <- Signable(c, old(Body()), sw, ssc) :: Writable(item)
      ensures Body() == Encode(Signable(c, old(Body()), sw, ssc))
    {
      hide Encode, Signable, EncodeItem, Pad, FormatLen, PredictedSize, EncryptedSize, Fits;
      ghost var body := Body();
      SizesFit(size);
      EncodeSignable(c, body, sw, ssc);
      if size > 0 {
        EncryptBody();
        PrefixHeader(c.enc(ssc, Pad(body)));
      }
      AppendStatus();
    }

    // The walk of sm_verify: append the covered objects to the MAC input and note the last DO8E.
    static method CollectSigned(d: seq<byte>, input: array<byte>, start: nat)
      returns (ok: bool, len: nat, covers: bool, mac: Option<seq<byte>>)
      requires input.Length == USB_BUFFER_SIZE && start <= USB_BUFFER_SIZE
      modifies input
      ensures ok == (start + |Signed(Items(d, 0))| <= USB_BUFFER_SIZE)
      ensures ok ==> Collected(Items(d, 0), start, old(input[..]), input[..], len, covers, mac)
    {
      hide Signed, Walk, Writable, Collected;
      var walker := new Walker(d);
      len, covers, mac := start, false, None;
      ghost var done: seq<Item> := [];
      ghost var at := 0;
      ghost var was := input[..];
      var found, item := walker.Next();
      NothingCollected(start, was);
      while found
        invariant walker.data == d && at <= |d|
        invariant found == Walk(d, at).Some?
        invariant found ==> Some((item, walker.p)) == Walk(d, at)
        invariant done + Items(d, at) == Items(d, 0)
        invariant Collected(done, start, was, input[..], len, covers, mac)
        decreases |d| - at
      {
        assert done + Items(d, at) == done + [item] + Items(d, walker.p);
        ok, len, covers, mac := CollectItem(item, input, len, covers, mac, done, start, was);
        if !ok {
          SignedGrows(done + [item], Items(d, walker.p));
          return;
        }
        done := done + [item];
        at := walker.p;
        found, item := walker.Next();
      }
      assert done == Items(d, 0);
      CollectedFits(done, start, was, input[..], len, covers, mac);
      ok := true;
    }

    static method CollectItem(item: Item, input: array<byte>, len: nat, covers: bool, mac: Option<seq<byte>>,
                              ghost done: seq<Item>, ghost start: nat, ghost was: seq<byte>)
      returns (ok: bool, newLen: nat, newCovers: bool, newMac: Option<seq<byte>>)
      requires input.Length == USB_BUFFER_SIZE && Writable(item)
      requires Collected(done, start, was, input[..], len, covers, mac)
      modifies input
      ensures forall i <- done + [item] :: Writable(i)
      ensures ok == (start + |Signed(done + [item])| <= USB_BUFFER_SIZE)
      ensures ok ==> Collected(done + [item], start, was, input[..], newLen, newCovers, newMac)
    {
      CollectOne(done, item, start, was, input[..], len, covers, mac);
      hide Collected, Signed, Splice;
      newLen, newCovers, newMac := len, covers, mac;
      if item.tag % 2 == 1 {
        var n := 1 + |FormatLen(|item.value|)| + |item.value|;
        if n > USB_BUFFER_SIZE - len {
          ok := false;
          return;
        }
        WriteSigned(input, len, item);
        newLen := len + n;
        newCovers := true;
      }
      if item.tag == 0x8E {
        newMac := Some(item.value);
      }
      ok := true;
    }

    static method WriteSigned(input: array<byte>, len: nat, item: Item)
      requires Writable(item) && len + |SignedItem(item)| <= input.Length
      modifies input
      ensures input[..] == Splice(old(input[..]), len, SignedItem(item))
    {
      ghost var was := input[..];
      input[len] := item.tag % 256;
      assert input[..] == Splice(was, len, [item.tag % 256]);
      hide Splice, FormatLen;
      var n := WriteLen(input, len + 1, |item.value|);
      Copy(input, len + 1 + n, item.value);
      SpliceThree(was, len, [item.tag % 256], FormatLen(|item.value|), item.value);
    }

    // sm_verify
    method Verify(header: seq<byte>) returns (r: Status)
      requires Valid() && |header| == 4
      modifies this`ssc
      ensures r == (if TooLong(header, nc) then WrongLength
                    else if ssc >= SSC_LIMIT then ExecError
                    else Checked(c, header, Items(cmd[..nc], 0), ssc))
      ensures ssc == old(ssc) + if TooLong(header, nc) then 0 else 1
    {
      if TooLong(header, nc) {
        return WrongLength;
      }
      ssc := ssc + 1;
      if ssc >= SSC_LIMIT {
        return ExecError;
      }
      r := CheckMac(header);
    }

    // A cleared MAC input starting with the counter and, if it is covered, the command header.
    method StartInput(header: seq<byte>) returns (input: array<byte>, len: nat)
      requires |header| == 4
      ensures fresh(input) && input.Length == USB_BUFFER_SIZE
      ensures len == BLOCK + |HeaderPart(header)|
      ensures input[..] == CounterBlock(ssc) + HeaderPart(header) + Zeros(USB_BUFFER_SIZE - len)
    {
      hide Splice, CounterBlock;
      input := new byte[USB_BUFFER_SIZE](_ => 0);
      assert input[..] == Zeros(USB_BUFFER_SIZE);
      Copy(input, 0, CounterBlock(ssc));
      StartedInput(CounterBlock(ssc), header);
      len := BLOCK;
      if Indicator(header[0]) == 3 {
        Copy(input, len, header);
        input[len + 4] := 0x80;
        len := len + BLOCK;
      }
    }

    static method PadInput(input: array<byte>, len: nat) returns (ok: bool, padded: nat)
      requires input.Length == USB_BUFFER_SIZE && len <= USB_BUFFER_SIZE
      requires forall k | len <= k < USB_BUFFER_SIZE :: input[k] == 0
      modifies input
      ensures ok == (len < USB_BUFFER_SIZE)
      ensures ok ==> padded <= USB_BUFFER_SIZE && input[..padded] == MinimalPad(old(input[..len]))
    {
      var padding := BLOCK - len % BLOCK;
      if padding > USB_BUFFER_SIZE - len {
        return false, len;
      }
      input[len] := 0x80;
      padded := len + 1 + (padding - 1);
      ok := true;
    }

    method CheckMac(header: seq<byte>) returns (r: Status)
      requires Valid() && |header| == 4
      ensures r == Checked(c, header, Items(cmd[..nc], 0), ssc)
    {
      hide Items, Signed, CounterBlock, HeaderPart, MinimalPad, LastWith, Collected;
      ghost var items := Items(cmd[..nc], 0);
      ghost var prefix := CounterBlock(ssc) + HeaderPart(header);
      var input, start := StartInput(header);
      ghost var was := input[..];
      var ok, len, covers, mac := CollectSigned(cmd[..nc], input, start);
      if !ok {
        return WrongLength;
      }
      CollectedInput(prefix, items, was, input[..], len, covers, mac);
      if mac.None? || |mac.value| != 8 {
        return WrongData;
      }
      r := CompareMac(input, len, covers, mac.value);
    }

    // The end of sm_verify: pad the input if it covers anything, and compare.
    method CompareMac(input: array<byte>, len: nat, covers: bool, mac: seq<byte>) returns (r: Status)
      requires Lawful(c) && input.Length == USB_BUFFER_SIZE && len <= USB_BUFFER_SIZE
      requires input[len..] == Zeros(USB_BUFFER_SIZE - len)
      modifies input
      ensures var m := old(input[..len]);
              r == if covers && len == USB_BUFFER_SIZE then WrongLength
                   else if c.mac(if covers then MinimalPad(m) else m)[..8] == mac then Ok
                   else VerificationFailed
    {
      hide MinimalPad;
      var n := len;
      if covers {
        forall k | len <= k < USB_BUFFER_SIZE
          ensures input[k] == 0
        {
          assert input[k] == input[len..][k - len];
        }
        var ok;
        ok, n := PadInput(input, len);
        if !ok {
          return WrongLength;
        }
      }
      var signature := c.mac(input[..n]);
      r := if signature[..8] == mac then Ok else VerificationFailed;
    }

    // sm_get_le
    method GetLe() returns (le: nat)
      requires nc <= cmd.Length
      ensures le == Le(Items(cmd[..nc], 0))
    {
      hide Items, FirstWith, LowBytes;
      var value := FindTag(cmd[..nc], 0x97);
      le := 0;
      EmptyLowBytes();
      if value.Some? {
        var v := value.value;
        var t := 0;
        while t < |v|
          invariant 0 <= t <= |v|
          invariant le == LowBytes(v[..t])
        {
          assert v[..t + 1] == v[..t] + [v[t]];
          LowBytesAppend(v[..t], v[t]);
          le := 256 * (le % 256) + v[t];
          t := t + 1;
        }
        assert v[..t] == v;
      }
    }

    static method NoteItem(seen: Option<Field>, item: Item, next: nat) returns (now: Option<Option<Field>>)
      requires |item.value| <= next
      ensures now == Noted(seen, item, next)
    {
      var n := |item.value|;
      now := Some(seen);
      if item.tag == 0x87 || item.tag == 0x85 {
        now := Some(Some(Field(seen.Some? && seen.value.indicator, next - n, n)));
        if item.tag == 0x87 {
          if n == 0 {
            return None;
          }
          now := Some(Some(Field(true, next - n, n - 1)));
        }
      }
    }

    // The walk of sm_unwrap.
    static method LocateBody(d: seq<byte>) returns (f: Option<Option<Field>>)
      ensures f == FindBody(d, 0, None)
    {
      var walker := new Walker(d);
      var seen: Option<Field> := None;
      ghost var at := 0;
      var found, item := walker.Next();
      while found
        invariant walker.data == d && at <= |d|
        invariant found == Walk(d, at).Some?
        invariant found ==> Some((item, walker.p)) == Walk(d, at)
        invariant seen.Some? ==> seen.value.at + seen.value.size <= |d|
        invariant FindBody(d, 0, None) == FindBody(d, at, seen)
        decreases |d| - at
      {
        hide Noted;
        var now := NoteItem(seen, item, walker.p);
        if now.None? {
          return None;
        }
        seen := now.value;
        at := walker.p;
        found, item := walker.Next();
      }
      f := Some(seen);
    }

    // The rest of sm_unwrap once the MAC is good.
    method Open() returns (r: Status)
      requires Valid()
      modifies this`nc, cmd
      ensures Valid()
      ensures r == Opened(c, ssc, old(cmd[..]), old(nc)).0
      ensures r == Ok ==> cmd[..nc] == Opened(c, ssc, old(cmd[..]), old(nc)).1
      ensures r != Ok ==> nc == old(nc) && unchanged(cmd)
    {
      hide FindBody, Unpad;
      ghost var buf := cmd[..];
      assert buf[..nc] == cmd[..nc];
      var f := LocateBody(cmd[..nc]);
      if f.None? {
        return WrongLength;
      }
      if f.value.None? {
        nc := 0;
        return Ok;
      }
      var at, size := f.value.value.at, f.value.value.size;
      if f.value.value.indicator {
        if cmd[at] != 1 {
          return WrongPadding;
        }
        at := at + 1;
      }
      if size == 0 || size % BLOCK != 0 {
        return WrongLength;
      }
      assert cmd[at..at + size] == buf[at..at + size];
      OpenAt(at, size);
      r := Ok;
    }

    method OpenAt(at: nat, size: nat)
      requires Valid() && 0 < size && at + size <= cmd.Length && size <= U16_MAX
      modifies this`nc, cmd
      ensures Valid()
      ensures var plain := c.dec(ssc, old(cmd[at..at + size]));
              cmd[..nc] == plain[..Unpad(plain)]
    {
      Decrypt(at, size);
      nc := RemovePadding(cmd[..size]);
      assert cmd[..nc] == cmd[..size][..nc];
    }

    // Decrypt in place, then move the plaintext to the front.
    method Decrypt(at: nat, size: nat)
      requires Lawful(c) && 0 < size && at + size <= cmd.Length
      modifies cmd
      ensures cmd[..size] == c.dec(ssc, old(cmd[at..at + size]))
    {
      Copy(cmd, at, c.dec(ssc, cmd[at..at + size]));
      MoveDown(cmd, 0, at, size);
    }

    // sm_unwrap
    method Unwrap(header: seq<byte>) returns (r: Status)
      requires Valid() && |header| == 4
      modifies this`ssc, this`ne, this`nc, cmd
      ensures Valid()
      ensures Indicator(header[0]) == 0 ==> r == Ok && unchanged(this) && unchanged(cmd)
      ensures Indicator(header[0]) != 0 && !active ==> r == ExecError && unchanged(this) && unchanged(cmd)
      ensures Indicator(header[0]) != 0 && active ==>
                && var verdict := if TooLong(header, old(nc)) then WrongLength
                                  else if ssc >= SSC_LIMIT then ExecError
                                  else Checked(c, header, Items(old(cmd[..nc]), 0), ssc);
                && ssc == old(ssc) + (if TooLong(header, old(nc)) then 0 else 1)
                && (verdict != Ok ==> r == verdict && nc == old(nc) && ne == old(ne) && unchanged(cmd))
                && (verdict == Ok ==>
                      && ne == Le(Items(old(cmd[..nc]), 0))
                      && r == Opened(c, ssc, old(cmd[..]), old(nc)).0
                      && (r == Ok ==> cmd[..nc] == Opened(c, ssc, old(cmd[..]), old(nc)).1)
                      && (r != Ok ==> nc == old(nc) && unchanged(cmd)))
    {
      hide Items, Checked, Opened, Le, TooLong, Indicator, Lawful;
      if Indicator(header[0]) == 0 {
        return Ok;
      }
      if !active {
        return ExecError;
      }
      r := Verify(header);
      if r != Ok {
        return;
      }
      ne := GetLe();
      r := Open();
    }
  }

  // DO8E behind the first n bytes of a buffer.
  lemma MacObject(buf: seq<byte>, n: nat, mac: seq<byte>)
    requires |mac| == 16 && n + 18 <= |buf|
    ensures var after := Splice(buf, n + 2, mac)[n := 0x8E][n + 1 := 8];
            after[..n + 10] == buf[..n] + EncodeItem(Item(0x8E, mac[..8]))
  {
    var spliced := Splice(buf, n + 2, mac);
    var after := spliced[n := 0x8E][n + 1 := 8];
    assert EncodeItem(Item(0x8E, mac[..8])) == [0x8E, 8] + mac[..8];
    assert spliced[n + 2..n + 18] == mac;
    hide *;
    forall i | 0 <= i < n + 10
      ensures after[..n + 10][i] == (buf[..n] + ([0x8E, 8] + mac[..8]))[i]
    {
      assert i >= n + 2 ==> spliced[i] == spliced[n + 2..n + 18][i - n - 2];
    }
  }

  lemma PaddedInput(counter: seq<byte>, objects: seq<byte>)
    requires |counter| == BLOCK && BLOCK + |objects| + 17 <= USB_BUFFER_SIZE
    ensures var n := BLOCK + |objects|;
            Splice(Splice(Zeros(USB_BUFFER_SIZE), 0, counter), BLOCK, objects)
              [n := 0x80][..n + 1 + BLOCK - (n + 1) % BLOCK]
              == Pad(counter + objects)
  {
    SpliceTwo(Zeros(USB_BUFFER_SIZE), 0, counter, objects);
  }

  // The cleared MAC input behind the counter and the header.
  lemma StartedInput(counter: seq<byte>, header: seq<byte>)
    requires |counter| == BLOCK && |header| == 4
    ensures var clear := Splice(Zeros(USB_BUFFER_SIZE), 0, counter);
            && clear == counter + [] + Zeros(USB_BUFFER_SIZE - BLOCK)
            && Splice(clear, BLOCK, header)[BLOCK + 4 := 0x80] ==
                 counter + (header + [0x80] + Zeros(BLOCK - 5)) + Zeros(USB_BUFFER_SIZE - 2 * BLOCK)
  {
  }

  lemma EmptyLowBytes()
    ensures LowBytes([]) == 0
  {
  }

  lemma CollectedInput(prefix: seq<byte>, items: seq<Item>, was: seq<byte>, buf: seq<byte>, len: nat, covers: bool,
                       mac: Option<seq<byte>>)
    requires |prefix| <= USB_BUFFER_SIZE && was == prefix + Zeros(USB_BUFFER_SIZE - |prefix|)
    requires Collected(items, |prefix|, was, buf, len, covers, mac)
    ensures (forall item <- items :: Writable(item)) && |buf| == USB_BUFFER_SIZE
    ensures len == |prefix| + |Signed(items)| <= USB_BUFFER_SIZE && mac == LastWith(items, 0x8E)
    ensures covers == exists item <- items :: Odd(item)
    ensures buf[..len] == prefix + Signed(items) && buf[len..] == Zeros(USB_BUFFER_SIZE - len)
  {
    hide Signed, LastWith, Odd, Writable;
    assert was[len..] == Zeros(USB_BUFFER_SIZE - len);
  }

  // What has been collected from the items so far: the MAC input grew from `was[..start]`.
  ghost predicate Collected(items: seq<Item>, start: nat, was: seq<byte>, buf: seq<byte>, len: nat, covers: bool,
                            mac: Option<seq<byte>>)
  {
    && (forall item <- items :: Writable(item))
    && start <= len == start + |Signed(items)| <= |buf| == |was|
    && covers == (exists item <- items :: Odd(item))
    && mac == LastWith(items, 0x8E)
    && buf[..len] == was[..start] + Signed(items)
    && buf[len..] == was[len..]
  }

  lemma CollectedFits(items: seq<Item>, start: nat, was: seq<byte>, buf: seq<byte>, len: nat, covers: bool,
                      mac: Option<seq<byte>>)
    requires Collected(items, start, was, buf, len, covers, mac)
    ensures (forall item <- items :: Writable(item)) && start + |Signed(items)| == len <= |buf|
  {
  }

  lemma SizesFit(n: nat)
    requires Fits(n)
    ensures PredictedSize(n) <= 2019 && (n > 0 ==> EncryptedSize(n) <= 2000)
  {
    FitsIff(n);
  }

  lemma NothingCollected(start: nat, buf: seq<byte>)
    requires start <= |buf|
    ensures Collected([], start, buf, buf, start, false, None)
  {
  }

  lemma SpliceThree(buf: seq<byte>, at: nat, a: seq<byte>, b: seq<byte>, c: seq<byte>)
    requires at + |a| + |b| + |c| <= |buf|
    ensures Splice(Splice(Splice(buf, at, a), at + |a|, b), at + |a| + |b|, c) == Splice(buf, at, a + b + c)
  {
    hide Splice;
    SpliceTwo(buf, at, a, b);
    SpliceTwo(buf, at, a + b, c);
  }

  lemma SpliceTwo(buf: seq<byte>, at: nat, a: seq<byte>, b: seq<byte>)
    requires at + |a| + |b| <= |buf|
    ensures Splice(Splice(buf, at, a), at + |a|, b) == Splice(buf, at, a + b)
  {
    var first := Splice(buf, at, a);
    assert first[..at + |a|] == buf[..at] + a && first[at + |a| + |b|..] == buf[at + |a| + |b|..];
  }

  lemma LastWithAppend(items: seq<Item>, item: Item, tag: nat)
    ensures LastWith(items + [item], tag) == if item.tag == tag then Some(item.value) else LastWith(items, tag)
  {
  }

  lemma SpliceExtends(was: seq<byte>, start: nat, done: seq<byte>, buf: seq<byte>, len: nat, code: seq<byte>)
    requires start <= len <= |buf| == |was| && len + |code| <= |buf|
    requires buf[..len] == was[..start] + done && buf[len..] == was[len..]
    ensures var after := Splice(buf, len, code);
            after[..len + |code|] == was[..start] + (done + code) && after[len + |code|..] == was[len + |code|..]
  {
  }

  lemma CollectOne(done: seq<Item>, item: Item, start: nat, was: seq<byte>, buf: seq<byte>, len: nat, covers: bool,
                   mac: Option<seq<byte>>)
    requires Collected(done, start, was, buf, len, covers, mac) && Writable(item)
    ensures len <= |buf|
    ensures forall i <- done + [item] :: Writable(i)
    ensures var n := if Odd(item) then |SignedItem(item)| else 0;
            && start + |Signed(done + [item])| == len + n
            && (len + n <= |buf| ==>
                  Collected(done + [item], start, was, if Odd(item) then Splice(buf, len, SignedItem(item)) else buf,
                            len + n, covers || Odd(item), if item.tag == 0x8E then Some(item.value) else mac))
  {
    hide SignedItem, Signed, LastWith, Splice;
    SignedAppend(done, item);
    LastWithAppend(done, item, 0x8E);
    if Odd(item) && len + |SignedItem(item)| <= |buf| {
      SpliceExtends(was, start, Signed(done), buf, len, SignedItem(item));
    }
  }

  lemma {:induction false} SignedGrows(a: seq<Item>, b: seq<Item>)
    requires forall item <- a + b :: Writable(item)
    ensures forall item <- a :: Writable(item)
    ensures |Signed(a)| <= |Signed(a + b)|
    decreases |b|
  {
    forall item | item in a
      ensures Writable(item)
    {
      assert item in a + b;
    }
    if b == [] {
      assert a + b == a;
    } else {
      var init, last := b[..|b| - 1], b[|b| - 1];
      assert a + b == (a + init) + [last];
      SignedAppend(a + init, last);
      SignedGrows(a, init);
    }
  }
}
