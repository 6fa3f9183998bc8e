/** Response chaining of the APDU layer (pico-keys-sdk/src/apdu.c; sections 5.3.3 and
    5.3.4 of ISO/IEC 7816-4:2013).

    A response that does not fit is cut inside its own buffer: `61 xx` is stamped over
    two unsent bytes, which are kept in `bk` and put back by the next GET RESPONSE. */
module Apdu {
  import opened Bytes

  // buf holds the response; `rlen` body bytes before the status word are unsent, starting at `gr`.
  datatype State = State(buf: seq<byte>, rlen: nat, gr: nat, bk: nat, pending: bool)

  predicate Valid(s: State) {
    && s.gr + s.rlen + 2 <= |s.buf| <= U16_MAX && s.bk <= U16_MAX
    && (!s.pending ==> s.gr == 0)
    && (s.pending ==> s.rlen > 0 && s.buf[s.gr..s.gr + 2] == [0x61, Remaining(s.rlen)])
  }

  // The `xx` of `61 xx`: the number of bytes still to fetch, or 0 when there are 256 or more.
  function Remaining(rlen: nat): byte {
    if rlen >= 256 then 0 else rlen
  }

  // The unsent end of the response, status word included, with the stamped bytes put back.
  function Rest(s: State): (rest: seq<byte>)
    requires Valid(s)
    ensures |rest| == s.rlen + 2
  {
    if s.pending then Be16(s.bk) + s.buf[s.gr + 2..s.gr + s.rlen + 2] else s.buf[..s.rlen + 2]
  }

  // The whole response: what was sent before `gr`, then the rest.
  function Full(s: State): (full: seq<byte>)
    requires Valid(s)
  {
    s.buf[..s.gr] + Rest(s)
  }

  // ---------------------------------------------------------------- the steps

  // apdu_finish: the status word goes right after the body.
  function Finish(s: State, sw: nat): State
    requires s.rlen + 2 <= |s.buf| && sw <= U16_MAX
  {
    s.(buf := Splice(s.buf, s.rlen, Be16(sw)))
  }

  // Cut the response at offset `at`, leaving `rlen` body bytes for later.
  function CutAt(s: State, at: nat, rlen: nat): (cut: State)
    requires at + 2 <= |s.buf|
    ensures |cut.buf| == |s.buf| && cut.pending && cut.gr == at && cut.rlen == rlen
  {
    State(Splice(s.buf, at, [0x61, Remaining(rlen)]), rlen, at, FromBe16(s.buf[at..at + 2]), true)
  }

  // Put the two stamped bytes back.
  function Restore(s: State): (r: State)
    requires s.gr + 2 <= |s.buf| && s.bk <= U16_MAX
    ensures |r.buf| == |s.buf| && r.gr == s.gr && r.rlen == s.rlen
  {
    s.(buf := Splice(s.buf, s.gr, Be16(s.bk)))
  }

  // The driver sends buf[offset..offset + size].
  datatype Chunk = Chunk(offset: nat, size: nat)

  // apdu_next with a nonzero status word: the first chunk.
  function Next(s: State, ne: nat): (State, Chunk)
    requires Valid(s) && !s.pending
  {
    if s.rlen <= ne then (s, Chunk(0, s.rlen + 2))
    else (CutAt(s, ne, s.rlen - ne), Chunk(0, ne + 2))
  }

  // The GET RESPONSE branch of apdu_process; with nothing pending it is an ordinary command.
  function GetResponse(s: State, ne: nat): (State, Option<Chunk>)
    requires Valid(s)
  {
    if !s.pending then (s.(gr := 0), None)
    else
      var r := Restore(s);
      if s.rlen <= ne then (r.(rlen := 0, gr := 0, pending := false), Some(Chunk(s.gr, s.rlen + 2)))
      else (CutAt(r, s.gr + ne, s.rlen - ne), Some(Chunk(s.gr, ne + 2)))
  }

  // apdu_limit_response: the transport cannot carry `sizeNext` bytes at once.
  predicate Limits(s: State, sizeNext: nat, maxSize: nat) {
    maxSize >= 2 && sizeNext > maxSize && s.rlen > maxSize - 2
  }

  function LimitResponse(s: State, sizeNext: nat, maxSize: nat): (State, nat)
    requires Limits(s, sizeNext, maxSize) ==> maxSize <= |s.buf|
  {
    if !Limits(s, sizeNext, maxSize) then (s, sizeNext)
    else (CutAt(s, maxSize - 2, s.rlen - (maxSize - 2)), maxSize)
  }

  // ---------------------------------------------------------------- nothing is lost in place

  // What a host asking for `le` bytes must receive when `rest` is unsent.
  function Piece(rest: seq<byte>, le: nat): seq<byte>
    requires |rest| >= 2
  {
    if |rest| - 2 <= le then rest else rest[..le] + [0x61, Remaining(|rest| - 2 - le)]
  }

  lemma Window(buf: seq<byte>, a: nat, rest: seq<byte>, i: nat, j: nat)
    requires a + |rest| <= |buf| && buf[a..a + |rest|] == rest && i <= j <= |rest|
    ensures buf[a + i..a + j] == rest[i..j]
  {
    forall k | 0 <= k < j - i
      ensures buf[a + i..a + j][k] == rest[i..j][k]
    {
      assert rest[i + k] == buf[a..a + |rest|][i + k] == buf[a + (i + k)];
    }
  }

  // Cutting off the next `ne` bytes leaves everything after them to be sent ...
  lemma CutKeepsRest(s: State, ne: nat, rest: seq<byte>)
    requires |rest| == s.rlen + 2 && s.gr + |rest| <= |s.buf| <= U16_MAX && ne < s.rlen
    requires s.buf[s.gr..s.gr + |rest|] == rest
    ensures var cut := CutAt(s, s.gr + ne, s.rlen - ne);
            Valid(cut) && Rest(cut) == rest[ne..]
  {
    hide Valid, Rest, CutAt;
    var at := s.gr + ne;
    RestOfCut(s, at, s.rlen - ne);
    Window(s.buf, s.gr, rest, ne, ne + 2);
    Window(s.buf, s.gr, rest, ne + 2, |rest|);
    SplitAt(rest, ne, ne + 2);
  }

  lemma RestOfCut(s: State, at: nat, left: nat)
    requires left > 0 && at + left + 2 <= |s.buf| <= U16_MAX
    ensures var cut := CutAt(s, at, left);
            Valid(cut) && Rest(cut) == s.buf[at..at + 2] + s.buf[at + 2..at + left + 2]
  {
    hide Splice, Be16, FromBe16;
    var buf := CutAt(s, at, left).buf;
    SpliceParts(s.buf, at, [0x61, Remaining(left)]);
    Be16OfFromBe16(s.buf[at..at + 2]);
    assert buf[at + 2..at + left + 2] == buf[at + 2..][..left];
    assert s.buf[at + 2..at + left + 2] == s.buf[at + 2..][..left];
  }

  lemma SplitAt(rest: seq<byte>, i: nat, j: nat)
    requires i <= j <= |rest|
    ensures rest[i..] == rest[i..j] + rest[j..|rest|]
  {
  }

  // ... and sends just these bytes, with a trailer.
  lemma CutSends(s: State, ne: nat, rest: seq<byte>)
    requires |rest| == s.rlen + 2 && s.gr + |rest| <= |s.buf| <= U16_MAX && ne < s.rlen
    requires s.buf[s.gr..s.gr + |rest|] == rest
    ensures var cut := CutAt(s, s.gr + ne, s.rlen - ne);
            cut.buf[s.gr..s.gr + ne + 2] == Piece(rest, ne) && cut.buf[..s.gr + ne] == s.buf[..s.gr + ne]
  {
    hide CutAt, Remaining;
    CutParts(s, s.gr + ne, s.rlen - ne);
    CutWindow(s.buf, CutAt(s, s.gr + ne, s.rlen - ne).buf, s.gr, rest, ne, [0x61, Remaining(s.rlen - ne)]);
  }

  lemma CutParts(s: State, at: nat, left: nat)
    requires at + 2 <= |s.buf|
    ensures var buf := CutAt(s, at, left).buf;
            |buf| == |s.buf| && buf[..at] == s.buf[..at] && buf[at..at + 2] == [0x61, Remaining(left)]
  {
    hide Splice, Remaining;
    SpliceParts(s.buf, at, [0x61, Remaining(left)]);
  }

  lemma CutWindow(buf: seq<byte>, cut: seq<byte>, a: nat, rest: seq<byte>, ne: nat, trailer: seq<byte>)
    requires a + |rest| <= |buf| == |cut| && buf[a..a + |rest|] == rest && ne + |trailer| <= |rest|
    requires cut[..a + ne] == buf[..a + ne] && cut[a + ne..a + ne + |trailer|] == trailer
    ensures cut[a..a + ne + |trailer|] == rest[..ne] + trailer
  {
    forall k | 0 <= k < ne + |trailer|
      ensures cut[a + k] == (rest[..ne] + trailer)[k]
    {
      if k < ne {
        assert cut[..a + ne][a + k] == buf[..a + ne][a + k] == buf[a..a + |rest|][k];
      } else {
        assert cut[a + k] == cut[a + ne..a + ne + |trailer|][k - ne];
      }
    }
  }

  lemma SpliceParts(buf: seq<byte>, at: nat, src: seq<byte>)
    requires at + |src| <= |buf|
    ensures var r := Splice(buf, at, src);
            r[..at] == buf[..at] && r[at..at + |src|] == src && r[at + |src|..] == buf[at + |src|..]
  {
  }

  lemma RestoreGivesRest(s: State)
    requires Valid(s) && s.pending
    ensures Restore(s).buf[s.gr..s.gr + s.rlen + 2] == Rest(s) && Restore(s).buf[..s.gr] == s.buf[..s.gr]
    ensures Restore(s) == s.(buf := Restore(s).buf)
  {
  }

  // The first chunk is the piece the host asked for, and nothing of the rest is lost.
  lemma NextSends(s: State, ne: nat)
    requires Valid(s) && !s.pending
    ensures var (s', c) := Next(s, ne);
            && Valid(s') && c.offset + c.size <= |s'.buf|
            && s'.buf[c.offset..c.offset + c.size] == Piece(Rest(s), ne)
            && s'.pending == (ne < s.rlen) && (s'.pending ==> Rest(s') == Rest(s)[ne..])
  {
    hide Splice, Be16, FromBe16, Rest, Piece, CutAt;
    WholeIsRest(s);
    if ne < s.rlen {
      CutKeepsRest(s, ne, Rest(s));
      CutSends(s, ne, Rest(s));
    } else {
      WholePiece(Rest(s), ne);
    }
  }

  // So is every later chunk, although it was stamped over before.
  lemma GetResponseSends(s: State, ne: nat)
    requires Valid(s) && s.pending
    ensures var (s', c) := GetResponse(s, ne);
            && Valid(s') && c.Some? && c.value.offset + c.value.size <= |s'.buf|
            && s'.buf[c.value.offset..c.value.offset + c.value.size] == Piece(Rest(s), ne)
            && s'.pending == (ne < s.rlen) && (s'.pending ==> Rest(s') == Rest(s)[ne..])
  {
    hide Splice, Be16, FromBe16, Rest, Piece, CutAt, Restore;
    RestoreGivesRest(s);
    var r, rest := Restore(s), Rest(s);
    if ne < s.rlen {
      CutKeepsRest(r, ne, rest);
      CutSends(r, ne, rest);
    } else {
      WholePiece(rest, ne);
    }
  }

  lemma WholePiece(rest: seq<byte>, le: nat)
    requires 2 <= |rest| <= le + 2
    ensures Piece(rest, le) == rest
  {
  }

  // Limiting a response that was not chained yet is the same as a smaller Le.
  lemma LimitBeforeChaining(s: State, maxSize: nat)
    requires Valid(s) && !s.pending && Limits(s, s.rlen + 2, maxSize)
    ensures LimitResponse(s, s.rlen + 2, maxSize) == (Next(s, maxSize - 2).0, Next(s, maxSize - 2).1.size)
  {
  }

  // After Next has answered `sizeNext`, limiting keeps the response intact if and only if
  // it changes nothing or the response was not chained yet.
  lemma LimitIntactIff(s: State, maxSize: nat)
    requires Valid(s)
    ensures var sizeNext := if s.pending then s.gr + 2 else s.rlen + 2;
            var limited := LimitResponse(s, sizeNext, maxSize).0;
            Valid(limited) &&
            (Full(limited) == Full(s) <==> !(s.pending && Limits(s, sizeNext, maxSize)))
  {
    var sizeNext := if s.pending then s.gr + 2 else s.rlen + 2;
    if Limits(s, sizeNext, maxSize) {
      if s.pending {
        LimitShortensChained(s, maxSize);
      } else {
        LimitKeepsUnchained(s, maxSize);
      }
    }
  }

  // A response that was not chained yet always fits the transport after limiting. If it fitted before, it is
  // left alone; otherwise the transport gets as much as it can carry, with the status word that announces the
  // rest, and the rest is kept.
  lemma LimitFits(s: State, maxSize: nat)
    requires Valid(s) && !s.pending && maxSize >= 2
    ensures var (after, size) := LimitResponse(s, s.rlen + 2, maxSize);
            && size == (if s.rlen + 2 <= maxSize then s.rlen + 2 else maxSize)
            && (s.rlen + 2 <= maxSize ==> after == s)
            && (s.rlen + 2 > maxSize ==>
                  && Valid(after) && after.pending && Rest(after) == s.buf[maxSize - 2..s.rlen + 2]
                  && after.buf[..maxSize - 2] == s.buf[..maxSize - 2] && after.buf[maxSize - 2] == 0x61)
  {
    hide CutAt, Rest, Splice, Remaining, Be16, FromBe16;
    if s.rlen + 2 > maxSize {
      WholeIsRest(s);
      CutKeepsRest(s, maxSize - 2, s.buf[..s.rlen + 2]);
      CutParts(s, maxSize - 2, s.rlen - (maxSize - 2));
      assert CutAt(s, maxSize - 2, s.rlen - (maxSize - 2)).buf[maxSize - 2..maxSize][0] == 0x61;
    }
  }

  lemma LimitShortensChained(s: State, maxSize: nat)
    requires Valid(s) && s.pending && Limits(s, s.gr + 2, maxSize)
    ensures var limited := LimitResponse(s, s.gr + 2, maxSize).0;
            Valid(limited) && |Full(limited)| == s.rlen + 2 < |Full(s)|
  {
  }

  lemma LimitKeepsUnchained(s: State, maxSize: nat)
    requires Valid(s) && !s.pending && Limits(s, s.rlen + 2, maxSize)
    ensures var limited := LimitResponse(s, s.rlen + 2, maxSize).0;
            Valid(limited) && Full(limited) == Full(s)
  {
    hide Splice, FromBe16, Be16, Rest, CutAt, Piece, Remaining;
    var ne, rest := maxSize - 2, s.buf[..s.rlen + 2];
    WholeIsRest(s);
    CutKeepsRest(s, ne, rest);
    CutSends(s, ne, rest);
    PrefixOfPrefix(s.buf, ne, s.rlen + 2);
  }

  lemma WholeIsRest(s: State)
    requires Valid(s) && !s.pending
    ensures Rest(s) == s.buf[..s.rlen + 2] && Full(s) == s.buf[..s.rlen + 2]
  {
  }

  lemma PrefixOfPrefix(buf: seq<byte>, i: nat, j: nat)
    requires i <= j <= |buf|
    ensures buf[..i] + buf[..j][i..] == buf[..j]
  {
  }

  // Twenty bytes chained at eight and then limited to six: the count of unsent bytes is
  // wrong by eight, so eight bytes can never be fetched.
  lemma LimitAfterChainingLosesBytes()
    ensures var s := State(Zeros(22), 20, 0, 0, false);
            var (chained, c) := Next(s, 8);
            var limited := LimitResponse(chained, c.size, 6).0;
            Valid(chained) && Valid(limited) && |Full(chained)| == 22 && |Full(limited)| == 14
  {
  }

  // ---------------------------------------------------------------- whole exchanges

  // What a host should see for the Le values it sends, `rest` being the unsent end of the response.
  function Wire(rest: seq<byte>, les: seq<nat>): seq<seq<byte>>
    requires |rest| >= 2
    decreases |les|
  {
    if les == [] then []
    else [Piece(rest, les[0])] + if |rest| - 2 <= les[0] then [] else Wire(rest[les[0]..], les[1..])
  }

  // The chunks the buffer actually sends to a sequence of GET RESPONSE commands.
  function Serve(s: State, les: seq<nat>): seq<seq<byte>>
    requires Valid(s)
    decreases |les|
  {
    if les == [] || !s.pending then []
    else
      var (s', c) := GetResponse(s, les[0]);
      assert Valid(s') && c.value.offset + c.value.size <= |s'.buf| by { GetResponseSends(s, les[0]); }
      [s'.buf[c.value.offset..c.value.offset + c.value.size]] + Serve(s', les[1..])
  }

  lemma {:induction false} ServeIsWire(s: State, les: seq<nat>)
    requires Valid(s) && s.pending
    ensures Serve(s, les) == Wire(Rest(s), les)
    decreases |les|
  {
    if les != [] {
      hide Rest;
      hide Valid;
      hide GetResponse;
      hide Piece;
      GetResponseSends(s, les[0]);
      if les[0] < s.rlen {
        ServeIsWire(GetResponse(s, les[0]).0, les[1..]);
      }
    }
  }

  // The application has left its response, and there is room for the status word.
  predicate Unsent(s: State) {
    !s.pending && s.gr == 0 && s.rlen + 2 <= |s.buf| <= U16_MAX && s.bk <= U16_MAX
  }

  // One command: the application left `rlen` body bytes and a status word; the command's
  // own Le and then the Le of each GET RESPONSE decide the chunks. Nothing is sent for status word 0.
  function Exchange(s: State, sw: nat, les: seq<nat>): seq<seq<byte>>
    requires Unsent(s) && 0 < sw <= U16_MAX && les != []
  {
    var done := Finish(s, sw);
    var (s', c) := Next(done, les[0]);
    assert Valid(s') && c.offset + c.size <= |s'.buf| by { NextSends(done, les[0]); }
    [s'.buf[c.offset..c.offset + c.size]] + Serve(s', les[1..])
  }

  lemma ExchangeIsWire(s: State, sw: nat, les: seq<nat>)
    requires Unsent(s) && 0 < sw <= U16_MAX && les != []
    ensures Exchange(s, sw, les) == Wire(s.buf[..s.rlen] + Be16(sw), les)
  {
    var done := Finish(s, sw);
    assert Rest(done) == s.buf[..s.rlen] + Be16(sw);
    hide Rest;
    hide Next;
    hide Piece;
    hide Finish;
    NextSends(done, les[0]);
    if les[0] < s.rlen {
      ServeIsWire(Next(done, les[0]).0, les[1..]);
    }
  }

  // What the host rebuilds: it drops the status word of every chunk that has a successor.
  function Assemble(chunks: seq<seq<byte>>): seq<byte> {
    if chunks == [] then []
    else
      var c := chunks[0];
      if |chunks| == 1 then c else (if |c| >= 2 then c[..|c| - 2] else []) + Assemble(chunks[1..])
  }

  // The status word that makes the host go on.
  predicate SaysMore(chunk: seq<byte>) {
    |chunk| >= 2 && chunk[|chunk| - 2] == 0x61
  }

  // What has reached the host once it has asked for `asked` bytes.
  function Reached(rest: seq<byte>, asked: nat): seq<byte>
    requires |rest| >= 2
  {
    if asked >= |rest| - 2 then rest else rest[..asked] + [0x61, Remaining(|rest| - 2 - asked)]
  }

  // The rebuilt bytes are the whole response, status word included, if and only if the host asked for
  // enough; otherwise they are the prefix asked for and the true count of what is left.
  lemma {:induction false} WireLosesNothing(rest: seq<byte>, les: seq<nat>)
    requires |rest| >= 2 && les != []
    ensures Wire(rest, les) != [] && Assemble(Wire(rest, les)) == Reached(rest, Sum(les))
    ensures forall k | 0 <= k < |Wire(rest, les)| - 1 :: SaysMore(Wire(rest, les)[k])
    decreases |les|
  {
    hide Assemble, Piece, Reached, Wire, SaysMore;
    var le, more := les[0], les[1..];
    WireStep(rest, les);
    PieceEnds(rest, le);
    if le >= |rest| - 2 || more == [] {
      AssembleOne(Piece(rest, le));
      ReachedAtOnce(rest, le, more);
    } else {
      var tail := Wire(rest[le..], more);
      WireLosesNothing(rest[le..], more);
      AssembleMore(Piece(rest, le), tail);
      ReachedLater(rest, le, Sum(more));
    }
  }

  lemma WireStep(rest: seq<byte>, les: seq<nat>)
    requires |rest| >= 2 && les != []
    ensures Wire(rest, les) ==
            if les[0] >= |rest| - 2 || |les| == 1 then [Piece(rest, les[0])]
            else [Piece(rest, les[0])] + Wire(rest[les[0]..], les[1..])
  {
  }

  // What a chunk says about the rest: 61 xx, where xx is the number of bytes still to fetch if a byte can hold
  // it and 0 otherwise; a chunk that holds everything ends with the status word of the response.
  lemma ChunkAnnounces(rest: seq<byte>, le: nat)
    requires |rest| >= 2
    ensures var chunk, left := Piece(rest, le), |rest| - 2 - le;
            && |chunk| == (if left > 0 then le else |rest| - 2) + 2
            && (left > 0 ==> chunk[|chunk| - 2..] == [0x61, if left <= 255 then left else 0])
            && (left <= 0 ==> chunk[|chunk| - 2..] == rest[|rest| - 2..])
  {
  }

  lemma PieceEnds(rest: seq<byte>, le: nat)
    requires |rest| >= 2
    ensures le < |rest| - 2 ==>
              var c := Piece(rest, le);
              SaysMore(c) && c[..|c| - 2] == rest[..le]
  {
  }

  lemma AssembleOne(c: seq<byte>)
    ensures Assemble([c]) == c
  {
  }

  lemma AssembleMore(c: seq<byte>, tail: seq<seq<byte>>)
    requires |c| >= 2 && tail != []
    ensures Assemble([c] + tail) == c[..|c| - 2] + Assemble(tail)
  {
    assert ([c] + tail)[1..] == tail;
  }

  lemma ReachedAtOnce(rest: seq<byte>, le: nat, more: seq<nat>)
    requires |rest| >= 2 && (le >= |rest| - 2 || more == [])
    ensures Reached(rest, le + Sum(more)) == Piece(rest, le)
  {
  }

  lemma ReachedLater(rest: seq<byte>, le: nat, asked: nat)
    requires le < |rest| - 2
    ensures rest[..le] + Reached(rest[le..], asked) == Reached(rest, le + asked)
  {
    if asked < |rest| - 2 - le {
      assert rest[..le] + rest[le..][..asked] == rest[..le + asked];
    }
  }

  lemma ReachedOfResponse(body: seq<byte>, sw: nat, asked: nat)
    requires sw <= U16_MAX
    ensures Reached(body + Be16(sw), asked) ==
              if asked >= |body| then body + Be16(sw) else body[..asked] + [0x61, Remaining(|body| - asked)]
  {
    var full := body + Be16(sw);
    assert asked < |body| ==> full[..asked] == body[..asked];
  }

  // The exchange as a whole: for every body, status word and sequence of Le values, the host rebuilds the
  // prefix of body ++ SW it asked for, and all of it exactly when its Le values add up to the length of the
  // body. Every chunk but the last tells it to go on.
  lemma ResponseChainingIsLossless(s: State, sw: nat, les: seq<nat>)
    requires Unsent(s) && 0 < sw <= U16_MAX && les != []
    ensures var body, chunks, asked := s.buf[..s.rlen], Exchange(s, sw, les), Sum(les);
            && Assemble(chunks) == (if asked >= s.rlen then body + Be16(sw)
                                    else body[..asked] + [0x61, Remaining(s.rlen - asked)])
            && forall k | 0 <= k < |chunks| - 1 :: SaysMore(chunks[k])
  {
    hide Exchange, Assemble, Wire, Reached, Sum, Be16, SaysMore;
    var body := s.buf[..s.rlen];
    ExchangeIsWire(s, sw, les);
    WireLosesNothing(body + Be16(sw), les);
    ReachedOfResponse(body, sw, Sum(les));
  }

  // ---------------------------------------------------------------- the buffer in place

  /** The globals of the response side: the live buffer, apdu.rlen, rdata_gr, rdata_bk. */
  class Responder {
    var rdata: array<byte>
    var rlen: nat
    var gr: nat
    var bk: nat
    var pending: bool

    ghost function Abs(): State
      reads this, rdata
    {
      State(rdata[..], rlen, gr, bk, pending)
    }

    method Stamp(at: nat, left: nat)
      requires at + 2 <= rdata.Length
      modifies this, rdata
      ensures rdata == old(rdata) && Abs() == CutAt(old(Abs()), at, left)
    {
      gr := at;
      bk := FromBe16([rdata[gr], rdata[gr + 1]]);
      assert [rdata[gr], rdata[gr + 1]] == rdata[..][at..at + 2];
      Copy(rdata, gr, [0x61, if left >= 256 then 0 else left]);
      rlen := left;
      pending := true;
    }

    method PutBack()
      requires gr + 2 <= rdata.Length && bk <= U16_MAX
      modifies rdata
      ensures Abs() == Restore(old(Abs()))
    {
      Copy(rdata, gr, Be16(bk));
    }

    method FinishResponse(sw: nat)
      requires rlen + 2 <= rdata.Length && sw <= U16_MAX
      modifies rdata
      ensures Abs() == Finish(old(Abs()), sw)
    {
      Copy(rdata, rlen, Be16(sw));
    }

    // apdu_next
    method NextChunk(sw: nat, ne: nat) returns (size: nat)
      requires Valid(Abs()) && !pending
      modifies this, rdata
      ensures rdata == old(rdata)
      ensures sw != 0 ==> Abs() == Next(old(Abs()), ne).0 && size == Next(old(Abs()), ne).1.size
      ensures sw == 0 ==> Abs() == old(Abs()) && size == 0
    {
      if sw == 0 {
        return 0;
      }
      if rlen <= ne {
        return rlen + 2;
      }
      Stamp(ne, rlen - ne);
      size := ne + 2;
    }

    // The GET RESPONSE branch of apdu_process
    method GetResponseChunk(ne: nat) returns (chunk: Option<Chunk>)
      requires Valid(Abs())
      modifies this, rdata
      ensures rdata == old(rdata)
      ensures Abs() == GetResponse(old(Abs()), ne).0
      ensures chunk == GetResponse(old(Abs()), ne).1
    {
      hide CutAt, Restore, Rest;
      if !pending {
        gr := 0;
        return None;
      }
      PutBack();
      if rlen <= ne {
        chunk := Some(Chunk(gr, rlen + 2));
        rlen, gr, pending := 0, 0, false;
      } else {
        chunk := Some(Chunk(gr, ne + 2));
        Stamp(gr + ne, rlen - ne);
      }
    }

    // apdu_limit_response
    method LimitChunk(sw: nat, sizeNext: nat, maxSize: nat) returns (size: nat)
      requires Limits(Abs(), sizeNext, maxSize) ==> maxSize <= rdata.Length
      modifies this, rdata
      ensures rdata == old(rdata)
      ensures sw != 0 ==> (Abs(), size) == LimitResponse(old(Abs()), sizeNext, maxSize)
      ensures sw == 0 ==> Abs() == old(Abs()) && size == sizeNext
    {
      if sw == 0 || maxSize < 2 || sizeNext <= maxSize {
        return sizeNext;
      }
      var ne := maxSize - 2;
      if rlen <= ne {
        return sizeNext;
      }
      Stamp(ne, rlen - ne);
      size := maxSize;
    }
  }
}
