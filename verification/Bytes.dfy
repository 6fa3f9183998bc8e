/** Bytes, numbers in bytes, commands and buffer overwrites shared by the models. */
module Bytes {

  type byte = x: int | 0 <= x < 256

  datatype Option<+T> = None | Some(value: T)

  const U16_MAX: nat := 0xffff
  const U32_MAX: nat := 0xffff_ffff

  function Be16(n: nat): (b: seq<byte>)
    requires n <= U16_MAX
    ensures |b| == 2 && FromBe16(b) == n
  {
    [n / 256, n % 256]
  }

  function FromBe16(b: seq<byte>): (n: nat)
    requires |b| == 2
    ensures n <= U16_MAX
  {
    256 * b[0] as int + b[1]
  }

  lemma Be16OfFromBe16(b: seq<byte>)
    requires |b| == 2
    ensures Be16(FromBe16(b)) == b
  {
  }

  function Le32(n: nat): (b: seq<byte>)
    requires n <= U32_MAX
    ensures |b| == 4 && FromLe32(b) == n
  {
    var n1 := n / 256;
    var n2 := n1 / 256;
    [n % 256, n1 % 256, n2 % 256, n2 / 256]
  }

  function FromLe32(b: seq<byte>): (n: nat)
    requires |b| == 4
    ensures n <= U32_MAX
  {
    b[0] as int + 256 * b[1] as int + 0x1_0000 * b[2] as int + 0x100_0000 * b[3] as int
  }

  // The buffer after memcpy(buf + at, src, |src|).
  function Splice(buf: seq<byte>, at: nat, src: seq<byte>): (r: seq<byte>)
    requires at + |src| <= |buf|
    ensures |r| == |buf| && r[at..at + |src|] == src
    ensures forall i | 0 <= i < |buf| && !(at <= i < at + |src|) :: r[i] == buf[i]
  {
    buf[..at] + src + buf[at + |src|..]
  }

  lemma Joined(d: seq<byte>, at: nat, next: nat, end: nat)
    requires at <= next <= end <= |d|
    ensures d[at..next] + d[next..end] == d[at..end]
  {
  }

  // The channel a command came in on and the clock reading.
  datatype Call = Call(channel: nat, now: nat)

  function Sum(ns: seq<nat>): nat {
    if ns == [] then 0 else ns[0] + Sum(ns[1..])
  }

  function Concat(parts: seq<seq<byte>>): seq<byte>
    decreases |parts|
  {
    if parts == [] then [] else Concat(parts[..|parts| - 1]) + parts[|parts| - 1]
  }

  lemma ConcatAppend(parts: seq<seq<byte>>, part: seq<byte>)
    ensures Concat(parts + [part]) == Concat(parts) + part
  {
  }

  lemma Assoc<T>(a: seq<T>, b: seq<T>, c: seq<T>)
    ensures a + (b + c) == a + b + c
  {
  }

  function Zeros(n: nat): (z: seq<byte>)
    ensures |z| == n && forall i | 0 <= i < n :: z[i] == 0
  {
    seq(n, _ => 0)
  }

  // memcpy from a value
  method Copy(buf: array<byte>, at: nat, src: seq<byte>)
    requires at + |src| <= buf.Length
    modifies buf
    ensures buf[..] == Splice(old(buf[..]), at, src)
  {
    var i := 0;
    while i < |src|
      invariant 0 <= i <= |src|
      invariant forall j | 0 <= j < buf.Length :: buf[j] == if at <= j < at + i then src[j - at] else old(buf[j])
    {
      buf[at + i] := src[i];
      i := i + 1;
    }
  }

  // memcpy behind what has been written to a buffer that held `orig`.
  method AppendBytes(buf: array<byte>, at: nat, src: seq<byte>, ghost done: seq<byte>, ghost orig: seq<byte>)
    returns (next: nat)
    requires at == |done| && at + |src| <= buf.Length == |orig|
    requires buf[..] == done + orig[at..]
    modifies buf
    ensures next == at + |src| && buf[..] == done + src + orig[next..]
  {
    Copy(buf, at, src);
    next := at + |src|;
  }

  // The byte at j once the bytes from + [lo..hi) have been moved to `to`.
  function MovedByte(orig: seq<byte>, to: nat, from: nat, lo: nat, hi: nat, j: nat): byte
    requires lo <= hi && from + hi <= |orig| && j < |orig|
  {
    if to + lo <= j < to + hi then orig[j + from - to] else orig[j]
  }

  lemma MovedIsSplice(buf: seq<byte>, orig: seq<byte>, to: nat, from: nat, len: nat)
    requires to + len <= |orig| == |buf| && from + len <= |orig|
    requires forall j | 0 <= j < |buf| :: buf[j] == MovedByte(orig, to, from, 0, len, j)
    ensures buf == Splice(orig, to, orig[from..from + len])
  {
    var src := orig[from..from + len];
    assert buf[to..to + len] == src;
    assert buf[..to] == orig[..to];
    assert buf[to + len..] == orig[to + len..];
    assert buf == buf[..to] + buf[to..to + len] + buf[to + len..];
  }

  // memmove towards the end of the buffer: copies the last byte first.
  method MoveUp(buf: array<byte>, to: nat, from: nat, len: nat)
    requires from <= to && to + len <= buf.Length
    modifies buf
    ensures buf[..] == Splice(old(buf[..]), to, old(buf[from..from + len]))
  {
    ghost var orig := buf[..];
    var i := len;
    while i > 0
      invariant 0 <= i <= len
      invariant forall j | 0 <= j < buf.Length :: buf[j] == MovedByte(orig, to, from, i, len, j)
    {
      i := i - 1;
      buf[to + i] := buf[from + i];
    }
    MovedIsSplice(buf[..], orig, to, from, len);
  }

  // memmove towards the start of the buffer: copies the first byte first.
  method MoveDown(buf: array<byte>, to: nat, from: nat, len: nat)
    requires to <= from && from + len <= buf.Length
    modifies buf
    ensures buf[..] == Splice(old(buf[..]), to, old(buf[from..from + len]))
  {
    ghost var orig := buf[..];
    var i := 0;
    while i < len
      invariant 0 <= i <= len
      invariant forall j | 0 <= j < buf.Length :: buf[j] == MovedByte(orig, to, from, 0, i, j)
    {
      buf[to + i] := buf[from + i];
      i := i + 1;
    }
    MovedIsSplice(buf[..], orig, to, from, len);
  }
}
