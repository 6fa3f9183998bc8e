/** Command chaining: the part of process_apdu (pico-keys-sdk/src/apdu.c) that reassembles
    a command sent in fragments (section 5.3.3 of ISO/IEC 7816-4:2013). */
module CommandChain {
  import opened Bytes

  const CAPACITY: nat := 2038

  datatype Command = Command(cla: byte, ins: byte, p1: byte, p2: byte, data: seq<byte>)

  datatype Header = Header(cla: byte, ins: byte, p1: byte, p2: byte)

  datatype Chain = Idle | Open(header: Header, data: seq<byte>)

  // 9000 without dispatching, 6883, 6700, or the command goes on with this data field.
  datatype Outcome = Accepted | LastExpected | WrongLength | Dispatch(data: seq<byte>)

  // Bit 0x10 of CLA: more fragments follow.
  predicate Chained(c: Command) {
    c.cla / 16 % 2 == 1
  }

  function HeaderOf(c: Command): Header {
    Header(if Chained(c) then c.cla - 16 else c.cla, c.ins, c.p1, c.p2)
  }

  predicate IsSelect(c: Command) {
    c.ins == 0xA4 && c.p1 == 0x04 && (c.p2 == 0x00 || c.p2 == 0x04)
  }

  function Step(chain: Chain, c: Command): (Chain, Outcome) {
    if Chained(c) then
      if chain.Open? && HeaderOf(c) != chain.header then (Idle, LastExpected)
      else
        var data := if chain.Open? then chain.data else [];
        if |data| + |c.data| >= CAPACITY then (Idle, WrongLength)
        else (Open(HeaderOf(c), data + c.data), Accepted)
    else if chain.Idle? || IsSelect(c) then (Idle, Dispatch(c.data))
    else if HeaderOf(c) != chain.header then (Idle, LastExpected)
    else if |chain.data| + |c.data| >= CAPACITY then (Idle, WrongLength)
    else (Idle, Dispatch(chain.data + c.data))
  }

  // The chain after any sequence of commands.
  function After(history: seq<Command>): Chain {
    if history == [] then Idle else Step(After(history[..|history| - 1]), history[|history| - 1]).0
  }

  // What the fragments add up to.
  function Gathered(cs: seq<Command>): seq<byte> {
    Concat(seq(|cs|, i requires 0 <= i < |cs| => cs[i].data))
  }

  lemma GatheredStep(cs: seq<Command>, c: Command)
    ensures Gathered(cs + [c]) == Gathered(cs) + c.data
  {
    var parts := seq(|cs|, i requires 0 <= i < |cs| => cs[i].data);
    var all := seq(|cs| + 1, i requires 0 <= i < |cs| + 1 => (cs + [c])[i].data);
    assert all[..|cs|] == parts && all[|cs|] == c.data;
  }

  // history[j..] is a run of fragments of one command that fits and starts a new chain.
  ghost predicate IsRun(history: seq<Command>, j: nat) {
    && j < |history| && After(history[..j]) == Idle && |Gathered(history[j..])| < CAPACITY
    && forall i | j <= i < |history| :: Chained(history[i]) && HeaderOf(history[i]) == HeaderOf(history[j])
  }

  // At every moment the chain buffer is open exactly when the commands end in such a run,
  // and it then holds the concatenation of its fragments under their common header.
  lemma {:induction false} BufferIsCurrentRun(history: seq<Command>)
    ensures After(history).Open? <==> exists j: nat :: IsRun(history, j)
    ensures forall j: nat | IsRun(history, j) ::
              After(history) == Open(HeaderOf(history[j]), Gathered(history[j..]))
    decreases |history|
  {
    if history != [] {
      var before, c := history[..|history| - 1], history[|history| - 1];
      BufferIsCurrentRun(before);
      forall j: nat | IsRun(history, j)
        ensures After(history) == Open(HeaderOf(history[j]), Gathered(history[j..]))
      {
        RunShrinks(history, j);
      }
      if After(history).Open? {
        RunGrows(history);
      }
    }
  }

  lemma RunGrows(history: seq<Command>)
    requires history != [] && After(history).Open?
    requires var before := history[..|history| - 1];
             && (After(before).Open? ==> exists j: nat :: IsRun(before, j))
             && forall j: nat | IsRun(before, j) :: After(before) == Open(HeaderOf(before[j]), Gathered(before[j..]))
    ensures exists j: nat :: IsRun(history, j)
  {
    hide Gathered, IsRun, HeaderOf, Chained;
    var n := |history| - 1;
    var before := history[..n];
    if After(before).Open? {
      var j: nat :| IsRun(before, j);
      RunIsThere(before, j);
      ExtendRun(history, j);
    } else {
      FreshRun(history);
    }
  }

  lemma RunIsThere(history: seq<Command>, j: nat)
    requires IsRun(history, j)
    ensures j < |history|
  {
  }

  lemma FreshRun(history: seq<Command>)
    requires history != [] && After(history).Open? && After(history[..|history| - 1]).Idle?
    ensures IsRun(history, |history| - 1)
  {
    hide HeaderOf, Chained, Gathered, IsSelect;
    var n := |history| - 1;
    var c := history[n];
    GatheredOne(c);
    assert history[n..] == [c];
  }

  lemma GatheredOne(c: Command)
    ensures Gathered([c]) == c.data
  {
    assert [] + [c] == [c] && Gathered([]) == [];
    hide Gathered;
    GatheredStep([], c);
    assert [] + c.data == c.data;
  }

  lemma ExtendRun(history: seq<Command>, j: nat)
    requires history != [] && IsRun(history[..|history| - 1], j)
    requires var n := |history| - 1;
             && Chained(history[n]) && HeaderOf(history[n]) == HeaderOf(history[j])
             && |Gathered(history[..n][j..])| + |history[n].data| < CAPACITY
    ensures IsRun(history, j)
  {
    var n := |history| - 1;
    assert history[..n][..j] == history[..j];
    assert history[j..] == history[..n][j..] + [history[n]];
    hide Gathered;
    GatheredStep(history[..n][j..], history[n]);
  }

  lemma RunShrinks(history: seq<Command>, j: nat)
    requires IsRun(history, j)
    ensures var n := |history| - 1;
            && Gathered(history[j..]) == (if j == n then [] else Gathered(history[j..n])) + history[n].data
            && (j < n ==> IsRun(history[..n], j) && history[..n][j..] == history[j..n])
            && (j == n ==> After(history[..n]) == Idle)
  {
    var n := |history| - 1;
    assert history[..n][j..] == history[j..n] && history[..n][..j] == history[..j];
    assert history[j..] == history[j..n] + [history[n]];
    assert Gathered([]) == [];
    GatheredStep(history[j..n], history[n]);
  }

  // What a finished command is dispatched with: its own data when no run is open (or a
  // SELECT discards the run), else all fragments of the run and then its own data.
  lemma DispatchesWholeRun(history: seq<Command>, c: Command, data: seq<byte>)
    requires Step(After(history), c).1 == Dispatch(data)
    ensures Step(After(history), c).0 == Idle && !Chained(c)
    ensures if IsSelect(c) || After(history).Idle? then data == c.data
            else exists j: nat :: IsRun(history, j) && HeaderOf(c) == HeaderOf(history[j])
                   && data == Gathered(history[j..]) + c.data
  {
    BufferIsCurrentRun(history);
  }

  // A complete, fitting run followed by its last command always gets through.
  lemma CompleteRunIsDispatched(history: seq<Command>, j: nat, last: Command)
    requires IsRun(history, j) && !Chained(last) && !IsSelect(last) && HeaderOf(last) == HeaderOf(history[j])
    requires |Gathered(history[j..])| + |last.data| < CAPACITY
    ensures Step(After(history), last) == (Idle, Dispatch(Gathered(history[j..]) + last.data))
  {
    BufferIsCurrentRun(history);
  }

  // Anything else drops an open run: another header, an overflow, or a SELECT.
  lemma RunIsDropped(history: seq<Command>, j: nat, c: Command)
    requires IsRun(history, j)
    requires HeaderOf(c) != HeaderOf(history[j]) || |Gathered(history[j..])| + |c.data| >= CAPACITY
             || (IsSelect(c) && !Chained(c))
    ensures Step(After(history), c).0 == Idle
    ensures Step(After(history), c).1 != Accepted
    ensures Step(After(history), c).1.Dispatch? <==> IsSelect(c) && !Chained(c)
  {
    BufferIsCurrentRun(history);
  }

  // Without an open run a fragment of up to 2037 bytes opens one, and any other command goes on with its own data.
  lemma WithoutRun(history: seq<Command>, c: Command)
    requires forall j: nat :: !IsRun(history, j)
    ensures Step(After(history), c) ==
            if !Chained(c) then (Idle, Dispatch(c.data))
            else if |c.data| <= 2037 then (Open(HeaderOf(c), c.data), Accepted)
            else (Idle, WrongLength)
  {
    BufferIsCurrentRun(history);
    assert [] + c.data == c.data;
  }

  // The answer to any command while a run is open; a fragment that is accepted goes behind the run.
  lemma InRunIff(history: seq<Command>, j: nat, c: Command)
    requires IsRun(history, j)
    ensures var first := history[j];
            var same := c.ins == first.ins && c.p1 == first.p1 && c.p2 == first.p2
                        && c.cla % 16 == first.cla % 16 && c.cla / 32 == first.cla / 32;
            var fits := |Gathered(history[j..])| + |c.data| <= 2037;
            var more := c.cla / 16 % 2 == 1;
            var discards := !more && c.ins == 0xA4 && c.p1 == 4 && (c.p2 == 0 || c.p2 == 4);
            var (after, outcome) := Step(After(history), c);
            && (outcome == Accepted <==> more && same && fits)
            && (outcome == Accepted ==> after == Open(HeaderOf(c), Gathered(history[j..]) + c.data))
            && (outcome == LastExpected <==> !same && !discards)
            && (outcome == WrongLength <==> same && !fits && !discards)
            && (outcome.Dispatch? <==> discards || (!more && same && fits))
  {
    hide HeaderOf, Gathered, After;
    BufferIsCurrentRun(history);
    SameHeaderIff(c, history[j]);
  }

  // Two headers are the same if and only if they differ at most in the chaining bit of the class byte.
  lemma SameHeaderIff(c: Command, d: Command)
    ensures HeaderOf(c) == HeaderOf(d) <==>
              c.ins == d.ins && c.p1 == d.p1 && c.p2 == d.p2 && c.cla % 16 == d.cla % 16 && c.cla / 32 == d.cla / 32
  {
    hide HeaderOf;
    PlainClass(c);
    PlainClass(d);
    TwoParts(c.cla / 32, c.cla % 16, d.cla / 32, d.cla % 16);
  }

  lemma PlainClass(c: Command)
    ensures HeaderOf(c).cla == 32 * (c.cla / 32) + c.cla % 16
    ensures HeaderOf(c) == Header(HeaderOf(c).cla, c.ins, c.p1, c.p2)
  {
    Bits(c.cla);
  }

  lemma Bits(x: byte)
    ensures x == 32 * (x / 32) + 16 * (x / 16 % 2) + x % 16
  {
    var y := x / 16;
    assert y / 2 == x / 32;
  }

  lemma TwoParts(a: nat, b: nat, a': nat, b': nat)
    requires b < 16 && b' < 16
    ensures 32 * a + b == 32 * a' + b' <==> a == a' && b == b'
  {
  }

  /** The chaining globals: is_chaining, chain_buf, chain_ptr - chain_buf and chain_header. */
  class Chainer {
    var isChaining: bool
    const chainBuf: array<byte>
    var used: nat
    var header: Header

    ghost predicate Valid()
      reads this, chainBuf
    {
      chainBuf.Length == CAPACITY && used < CAPACITY
    }

    ghost function Abs(): Chain
      reads this, chainBuf
      requires Valid()
    {
      if isChaining then Open(header, chainBuf[..used]) else Idle
    }

    method Reject()
      requires Valid()
      modifies this, chainBuf
      ensures Valid() && Abs() == Idle
    {
      Copy(chainBuf, 0, Zeros(CAPACITY));
      used := 0;
      isChaining := false;
    }

    // A fragment: CLA has bit 0x10 set.
    method AddFragment(c: Command) returns (outcome: Outcome)
      requires Valid() && Chained(c)
      modifies this, chainBuf
      ensures Valid() && Abs() == Step(old(Abs()), c).0 && outcome == Step(old(Abs()), c).1
    {
      if !isChaining {
        used := 0;
        header := HeaderOf(c);
      } else if HeaderOf(c) != header {
        Reject();
        return LastExpected;
      }
      if used + |c.data| >= CAPACITY {
        Reject();
        return WrongLength;
      }
      Extend(c.data);
      isChaining := true;
      outcome := Accepted;
    }

    method Extend(data: seq<byte>)
      requires Valid() && used + |data| < CAPACITY
      modifies this`used, chainBuf
      ensures Valid() && chainBuf[..used] == old(chainBuf[..used]) + data
    {
      Copy(chainBuf, used, data);
      used := used + |data|;
    }

    // The last or only command. `data` is apdu.data, with room to move the last fragment up
    // behind the earlier ones; nc is apdu.nc.
    method FinishCommand(cla: byte, ins: byte, p1: byte, p2: byte, data: array<byte>, nc: nat)
      returns (outcome: Outcome, nc': nat)
      requires Valid() && data != chainBuf && nc <= data.Length && data.Length >= CAPACITY
      requires !Chained(Command(cla, ins, p1, p2, data[..nc]))
      modifies this, chainBuf, data
      ensures Valid() && Abs() == Idle
      ensures outcome == Step(old(Abs()), Command(cla, ins, p1, p2, old(data[..nc]))).1
      ensures nc' <= data.Length && (outcome.Dispatch? ==> data[..nc'] == outcome.data)
    {
      ghost var c := Command(cla, ins, p1, p2, data[..nc]);
      nc' := nc;
      var isSelect := ins == 0xA4 && p1 == 0x04 && (p2 == 0x00 || p2 == 0x04);
      if isChaining && (isSelect || Header(cla, ins, p1, p2) != header) {
        Reject();
        if !isSelect {
          return LastExpected, nc;
        }
      }
      if isChaining {
        if used + nc >= CAPACITY {
          Reject();
          return WrongLength, nc;
        }
        JoinFragments(data, nc);
        nc' := nc + used;
        Reject();
      }
      outcome := Dispatch(data[..nc']);
    }

    // memmove(data + used, data, nc); memcpy(data, chain_buf, used)
    method JoinFragments(data: array<byte>, nc: nat)
      requires Valid() && data != chainBuf && used + nc <= data.Length
      modifies data
      ensures data[..nc + used] == chainBuf[..used] + old(data[..nc])
    {
      ghost var last := data[..nc];
      MoveUp(data, used, 0, nc);
      assert data[used..used + nc] == last;
      Copy(data, 0, chainBuf[..used]);
      assert data[used..used + nc] == last && data[..used] == chainBuf[..used];
      assert data[..nc + used] == data[..used] + data[used..used + nc];
    }
  }
}
