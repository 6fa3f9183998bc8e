/** The HKDF-Expand loop of the vault (pico-keys-sdk/src/vault.c; section 2.3 of RFC 5869), whose block
    counter is a single byte. */
module Hkdf {
  import opened Bytes

  const NH: nat := 64                // the output of HMAC-SHA-512
  const EXPAND_INFO_MAX: nat := 256

  ghost predicate IsHmac(hmac: (seq<byte>, seq<byte>) -> seq<byte>) {
    forall key, m :: |hmac(key, m)| == NH
  }

  // T(i) of RFC 5869; T(0) is empty.
  function Block(hmac: (seq<byte>, seq<byte>) -> seq<byte>, prk: seq<byte>, info: seq<byte>, i: nat): seq<byte>
    requires i <= 255
  {
    if i == 0 then [] else hmac(prk, Block(hmac, prk, info, i - 1) + info + [i])
  }

  // T(1) ++ T(2) ++ ... ++ T(n)
  function Blocks(hmac: (seq<byte>, seq<byte>) -> seq<byte>, prk: seq<byte>, info: seq<byte>, n: nat): seq<byte>
    requires n <= 255
  {
    if n == 0 then [] else Blocks(hmac, prk, info, n - 1) + Block(hmac, prk, info, n)
  }

  lemma {:induction false} BlocksLength(hmac: (seq<byte>, seq<byte>) -> seq<byte>, prk: seq<byte>, info: seq<byte>,
                                        n: nat)
    requires IsHmac(hmac) && n <= 255
    ensures |Blocks(hmac, prk, info, n)| == NH * n
  {
    if n > 0 {
      BlocksLength(hmac, prk, info, n - 1);
    }
  }

  // Longer outputs extend shorter ones.
  lemma {:induction false} BlocksGrow(hmac: (seq<byte>, seq<byte>) -> seq<byte>, prk: seq<byte>, info: seq<byte>,
                                      m: nat, n: nat)
    requires m <= n <= 255
    ensures Blocks(hmac, prk, info, m) <= Blocks(hmac, prk, info, n)
    decreases n
  {
    if m < n {
      BlocksGrow(hmac, prk, info, m, n - 1);
    }
  }

  // The first `len` bytes of all 255 blocks.
  ghost function Expanded(hmac: (seq<byte>, seq<byte>) -> seq<byte>, prk: seq<byte>, info: seq<byte>, len: nat)
      : (okm: seq<byte>)
    requires IsHmac(hmac) && len <= 255 * NH
    ensures |okm| == len
  {
    BlocksLength(hmac, prk, info, 255);
    Blocks(hmac, prk, info, 255)[..len]
  }

  lemma {:induction false} BlockStands(hmac: (seq<byte>, seq<byte>) -> seq<byte>, prk: seq<byte>, info: seq<byte>,
                                       i: nat, n: nat)
    requires IsHmac(hmac) && 1 <= i <= n <= 255
    ensures |Blocks(hmac, prk, info, n)| == NH * n
    ensures Blocks(hmac, prk, info, n)[NH * (i - 1)..NH * i] == Block(hmac, prk, info, i)
    decreases n
  {
    BlocksLength(hmac, prk, info, n);
    BlocksLength(hmac, prk, info, n - 1);
    if i < n {
      BlockStands(hmac, prk, info, i, n - 1);
      var before := Blocks(hmac, prk, info, n - 1);
      assert Blocks(hmac, prk, info, n)[NH * (i - 1)..NH * i] == before[NH * (i - 1)..NH * i];
    }
  }

  // The output alone determines itself: its first block is the HMAC of info and 1, every other one that of the
  // block before it, info and its number; and it starts with every shorter output.
  lemma ExpandedIsChained(hmac: (seq<byte>, seq<byte>) -> seq<byte>, prk: seq<byte>, info: seq<byte>,
                          len: nat, i: nat)
    requires IsHmac(hmac) && len <= 255 * NH && 1 <= i && 64 * i <= len
    ensures var okm := Expanded(hmac, prk, info, len);
            && okm[64 * (i - 1)..64 * i] ==
               hmac(prk, (if i == 1 then [] else okm[64 * (i - 2)..64 * (i - 1)]) + info + [i])
            && Expanded(hmac, prk, info, 64 * i) == okm[..64 * i]
  {
    hide Blocks;
    var okm := Expanded(hmac, prk, info, len);
    var all := Blocks(hmac, prk, info, 255);
    BlockStands(hmac, prk, info, i, 255);
    assert okm[64 * (i - 1)..64 * i] == all[64 * (i - 1)..64 * i];
    if i > 1 {
      BlockStands(hmac, prk, info, i - 1, 255);
      assert okm[64 * (i - 2)..64 * (i - 1)] == all[64 * (i - 2)..64 * (i - 1)];
    }
  }

  // One block, computed in the input buffer of the loop.
  method NextBlock(hmac: (seq<byte>, seq<byte>) -> seq<byte>, prk: seq<byte>, info: seq<byte>, counter: byte,
                   previous: seq<byte>, input: array<byte>)
    returns (block: seq<byte>)
    requires IsHmac(hmac) && |info| <= EXPAND_INFO_MAX && input.Length == NH + EXPAND_INFO_MAX + 1
    requires counter > 0 && |previous| == NH
    requires counter > 1 ==> previous == Block(hmac, prk, info, counter - 1)
    modifies input
    ensures block == Block(hmac, prk, info, counter) && |block| == NH
  {
    var len := 0;
    if counter > 1 {
      Copy(input, 0, previous);
      len := NH;
    }
    Copy(input, len, info);
    len := len + |info|;
    input[len] := counter;
    len := len + 1;
    assert input[..len] == Block(hmac, prk, info, counter - 1) + info + [counter];
    block := hmac(prk, input[..len]);
  }

  lemma NoBlocks(hmac: (seq<byte>, seq<byte>) -> seq<byte>, prk: seq<byte>, info: seq<byte>)
    ensures Blocks(hmac, prk, info, 0) == []
  {
  }

  lemma BlocksStep(hmac: (seq<byte>, seq<byte>) -> seq<byte>, prk: seq<byte>, info: seq<byte>, n: nat)
    requires 0 < n <= 255
    ensures Blocks(hmac, prk, info, n) == Blocks(hmac, prk, info, n - 1) + Block(hmac, prk, info, n)
  {
  }

  // The start of one more block goes behind the blocks that are there.
  lemma CopiedBlock(buf: seq<byte>, blocks: seq<byte>, block: seq<byte>, copy: nat, len: nat)
    requires copy <= |block| && |blocks| + copy <= len <= |buf| && buf[..|blocks|] == blocks
    ensures var after := Splice(buf, |blocks|, block[..copy]);
            after[..|blocks| + copy] == (blocks + block)[..|blocks| + copy] && after[len..] == buf[len..]
  {
  }

  // vault_hpke_hkdf_expand: for every length up to 255 blocks the output is the one of RFC 5869, and the
  // counter byte of each block is its index, so no value comes twice.
  method Expand(hmac: (seq<byte>, seq<byte>) -> seq<byte>, prk: seq<byte>, info: seq<byte>,
                output: array<byte>, len: nat)
    returns (ok: bool)
    requires IsHmac(hmac) && len <= output.Length
    modifies output
    ensures ok == (|info| <= EXPAND_INFO_MAX && len <= 255 * NH)
    ensures ok ==> output[..len] == Expanded(hmac, prk, info, len) && output[len..] == old(output[len..])
    ensures !ok ==> output[..] == old(output[..])
  {
    hide Block, Blocks, Splice;
    NoBlocks(hmac, prk, info);
    if |info| > EXPAND_INFO_MAX || len > 255 * NH {
      return false;
    }
    var input := new byte[NH + EXPAND_INFO_MAX + 1](_ => 0);
    var previous := Zeros(NH);
    var written := 0;
    var counter := 1;
    ghost var blocks := 0;
    while written < len
      invariant written <= len && blocks <= 255 && written == (if NH * blocks < len then NH * blocks else len)
      invariant written < len ==> counter == blocks + 1 <= 255
      invariant |previous| == NH && (blocks > 0 ==> previous == Block(hmac, prk, info, blocks))
      invariant |Blocks(hmac, prk, info, blocks)| == NH * blocks
      invariant output[..written] == Blocks(hmac, prk, info, blocks)[..written]
      invariant output[len..] == old(output[len..])
    {
      previous := NextBlock(hmac, prk, info, counter, previous, input);
      var copy := len - written;
      if copy > NH {
        copy := NH;
      }
      BlocksStep(hmac, prk, info, blocks + 1);
      CopiedBlock(output[..], Blocks(hmac, prk, info, blocks), previous, copy, len);
      Copy(output, written, previous[..copy]);
      written := written + copy;
      counter := (counter + 1) % 256;
      blocks := blocks + 1;
    }
    BlocksGrow(hmac, prk, info, blocks, 255);
    ok := true;
  }
}
