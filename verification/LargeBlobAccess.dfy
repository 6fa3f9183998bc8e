/** Who may write the large-blob array, and how long an upload may rest (src/fido/cbor_large_blobs.c). */
module LargeBlobAccess {
  import opened Bytes
  import opened LargeBlobs

  // ---------------------------------------------------------------- authorization

  // What the token signs for a fragment: 32 bytes 0xff, the command, the offset and the hash of the fragment.
  function Claim(hash: seq<byte> -> seq<byte>, offset: nat, fragment: seq<byte>): seq<byte>
    requires offset <= U32_MAX
  {
    seq(32, _ => 0xff) + [0x0c, 0] + Le32(offset) + hash(fragment)
  }

  // The token accepts the parameter for this fragment at this place, and has the large-blob permission.
  predicate TokenAccepts(hash: seq<byte> -> seq<byte>, r: Request, env: Env)
    requires r.offset.Some? && r.offset.value <= U32_MAX && r.fragment.Some?
  {
    && r.param.Some? && r.protocol.Some? && |r.param.value| == (if r.protocol.value == 1 then 16 else 32)
    && env.verify(r.protocol.value, Claim(hash, r.offset.value, r.fragment.value), r.param.value) && env.lbw
  }

  // Without a PIN or always-UV, a request that brings neither parameter nor protocol needs no token.
  predicate Open(r: Request, env: Env) {
    !env.required && r.param.None? && r.protocol.None?
  }

  lemma AuthorizedIff(hash: seq<byte> -> seq<byte>, r: Request, env: Env)
    requires r.offset.Some? && r.offset.value <= U32_MAX && r.fragment.Some?
    ensures Authorize(hash, r, r.offset.value, r.fragment.value, env) == Success
            <==> Open(r, env) || TokenAccepts(hash, r, env)
    ensures Authorize(hash, r, r.offset.value, r.fragment.value, env) != IntegrityFailure
  {
    hide SignedData, Claim;
    ClaimIsSigned(hash, r.offset.value, r.fragment.value);
  }

  lemma ClaimIsSigned(hash: seq<byte> -> seq<byte>, offset: nat, fragment: seq<byte>)
    requires offset <= U32_MAX
    ensures SignedData(hash, offset, fragment) == Claim(hash, offset, fragment)
  {
    hide Le32;
    assert offset % 0x1_0000_0000 == offset;
    assert Ones(32) == seq(32, _ => 0xff);
  }

  function Declared(r: Request): nat {
    if r.length.Some? then r.length.value else 0
  }

  // A fragment is taken if and only if it is short enough, opens an upload of 17 to 2048 bytes or continues
  // the pending one where it stands, fits into it, and is authorized.
  lemma TakenIff(hash: seq<byte> -> seq<byte>, v: View, r: Request, env: Env)
    requires Consistent(v) && Shape(r) == Success && r.fragment.Some?
    ensures var size := |r.fragment.value|;
            Write(hash, v.s, r, env).1 in {Success, IntegrityFailure} <==>
              && size <= 960
              && (if r.offset.value == 0 then 17 <= Declared(r) <= 2048 && size <= Declared(r)
                  else Declared(r) == 0 && r.offset.value == |Concat(v.taken)| && r.offset.value + size <= v.declared)
              && (Open(r, env) || TokenAccepts(hash, r, env))
  {
    hide Stage, Concat, Open, TokenAccepts, Authorize;
    var begun := Begun(v, r, env.now);
    if r.offset.value <= U32_MAX {
      AuthorizedIff(hash, r, env);
    }
    if |r.fragment.value| <= 960 {
      BegunConsistent(v, r, env.now);
      if begun.s.active && r.offset.value == begun.s.expectedNextOffset
         && r.offset.value + |r.fragment.value| <= begun.declared {
        StageKeepsConsistent(hash, begun, r.offset.value, r.fragment.value, env);
      }
    }
  }

  // Event k brought this part at this offset, and was entitled to.
  predicate Brought(hash: seq<byte> -> seq<byte>, events: seq<Event>, k: nat, offset: nat, part: seq<byte>) {
    && k < |events| && events[k].Do? && offset <= U32_MAX
    && events[k].request.fragment == Some(part) && events[k].request.offset == Some(offset)
    && (Open(events[k].request, events[k].env) || TokenAccepts(hash, events[k].request, events[k].env))
  }

  // Where part i stands in the whole.
  function Place(parts: seq<seq<byte>>, i: nat): nat
    requires i <= |parts|
  {
    |Concat(parts[..i])|
  }

  ghost predicate AllBrought(hash: seq<byte> -> seq<byte>, events: seq<Event>, parts: seq<seq<byte>>) {
    forall i | 0 <= i < |parts| :: PartBrought(hash, events, Place(parts, i), parts[i])
  }

  ghost predicate PartBrought(hash: seq<byte> -> seq<byte>, events: seq<Event>, offset: nat, part: seq<byte>) {
    exists k: nat :: Brought(hash, events, k, offset, part)
  }

  lemma BroughtLater(hash: seq<byte> -> seq<byte>, events: seq<Event>, parts: seq<seq<byte>>)
    requires events != [] && AllBrought(hash, events[..|events| - 1], parts)
    ensures AllBrought(hash, events, parts)
  {
    hide Place, Open, TokenAccepts;
    var before := events[..|events| - 1];
    forall i | 0 <= i < |parts|
      ensures PartBrought(hash, events, Place(parts, i), parts[i])
    {
      assert PartBrought(hash, before, Place(parts, i), parts[i]);
      var k: nat :| Brought(hash, before, k, Place(parts, i), parts[i]);
      assert Brought(hash, events, k, Place(parts, i), parts[i]);
    }
  }

  lemma OneMoreBrought(hash: seq<byte> -> seq<byte>, events: seq<Event>, parts: seq<seq<byte>>, part: seq<byte>, k: nat)
    requires AllBrought(hash, events, parts) && Brought(hash, events, k, |Concat(parts)|, part)
    ensures AllBrought(hash, events, parts + [part])
  {
    hide Brought, Place;
    var all := parts + [part];
    PlacesStay(parts, part);
    forall i | 0 <= i < |all|
      ensures PartBrought(hash, events, Place(all, i), all[i])
    {
      if i < |parts| {
        assert PartBrought(hash, events, Place(parts, i), parts[i]);
      } else {
        assert Brought(hash, events, k, Place(all, i), all[i]);
      }
    }
  }

  lemma PlacesStay(parts: seq<seq<byte>>, part: seq<byte>)
    ensures forall i | 0 <= i < |parts| :: Place(parts + [part], i) == Place(parts, i)
    ensures Place(parts + [part], |parts|) == |Concat(parts)|
  {
    hide Concat;
    assert forall i | 0 <= i <= |parts| :: (parts + [part])[..i] == parts[..i];
    assert parts[..|parts|] == parts;
  }

  // A command that takes its fragment was entitled to bring it there.
  lemma TakenIsBrought(hash: seq<byte> -> seq<byte>, v: View, events: seq<Event>, k: nat)
    requires Consistent(v) && k < |events| && events[k].Do? && events[k].request.fragment.Some?
    requires StatusOf(hash, v, events[k]) in {Success, IntegrityFailure}
    ensures Brought(hash, events, k, |Concat(Opened(v, events[k].request).taken)|, events[k].request.fragment.value)
  {
    hide Concat, Write, Open, TokenAccepts;
    var r, env := events[k].request, events[k].env;
    assert Concat([]) == [] by { EmptySent([]); }
    TakenIff(hash, v, r, env);
  }

  // Everything the client counts as taken was brought by an entitled request at its own place.
  lemma {:induction false} TakenAreBrought(hash: seq<byte> -> seq<byte>, v: View, events: seq<Event>)
    requires Consistent(v) && v.taken == []
    ensures AllBrought(hash, events, Run(hash, v, events).taken)
    decreases |events|
  {
    hide Consistent, Command, Brought, Place, Opened;
    if events != [] {
      var n := |events| - 1;
      var before := Run(hash, v, events[..n]);
      TakenAreBrought(hash, v, events[..n]);
      BroughtLater(hash, events, before.taken);
      if events[n].Do? {
        OpenedBrought(hash, events, before, events[n].request);
        var r := events[n].request;
        if r.fragment.Some? && StatusOf(hash, before, events[n]) in {Success, IntegrityFailure} {
          TakenIsBrought(hash, before, events, n);
          OneMoreBrought(hash, events, Opened(before, r).taken, r.fragment.value, n);
        }
      }
    }
  }

  lemma OpenedBrought(hash: seq<byte> -> seq<byte>, events: seq<Event>, v: View, r: Request)
    requires AllBrought(hash, events, v.taken)
    ensures AllBrought(hash, events, Opened(v, r).taken)
  {
    hide Brought, Place;
  }

  // In every run, with restarts, refused fragments and timeouts, a newly stored array consists of parts each of
  // which an entitled request brought for its own place: with a PIN or always-UV, one the token accepted.
  lemma StoredIsEntitled(hash: seq<byte> -> seq<byte>, v: View, events: seq<Event>)
    requires Consistent(v) && v.taken == []
    ensures var b := Run(hash, v, events).s.blob;
            b == v.s.blob ||
            exists parts: seq<seq<byte>> :: Concat(parts) == b && Intact(hash, b) && AllBrought(hash, events, parts)
    decreases |events|
  {
    hide Consistent, Brought, Place, Intact, Step;
    if events != [] {
      var n := |events| - 1;
      var before := Run(hash, v, events[..n]);
      var b := Run(hash, v, events).s.blob;
      StoredIsEntitled(hash, v, events[..n]);
      if b == before.s.blob {
        if b != v.s.blob {
          var parts: seq<seq<byte>> :| Concat(parts) == b && Intact(hash, b) && AllBrought(hash, events[..n], parts);
          BroughtLater(hash, events, parts);
        }
      } else {
        StoringIsEntitled(hash, v, events);
      }
    }
  }

  // The last event stored an array.
  lemma StoringIsEntitled(hash: seq<byte> -> seq<byte>, v: View, events: seq<Event>)
    requires Consistent(v) && v.taken == [] && events != []
    requires Run(hash, v, events).s.blob != Run(hash, v, events[..|events| - 1]).s.blob
    ensures var b := Run(hash, v, events).s.blob;
            exists parts: seq<seq<byte>> :: Concat(parts) == b && Intact(hash, b) && AllBrought(hash, events, parts)
  {
    hide Consistent, Brought, Place, Intact, Step, Opened;
    var n := |events| - 1;
    var before := Run(hash, v, events[..n]);
    StepStoresOnlyUploads(hash, before, events[n]);
    StoringIsTaken(hash, before, events[n]);
    var r := events[n].request;
    TakenAreBrought(hash, v, events[..n]);
    BroughtLater(hash, events, before.taken);
    OpenedBrought(hash, events, before, r);
    TakenIsBrought(hash, before, events, n);
    OneMoreBrought(hash, events, Opened(before, r).taken, r.fragment.value, n);
  }

  lemma StoringIsTaken(hash: seq<byte> -> seq<byte>, v: View, e: Event)
    requires Consistent(v) && Step(hash, v, e).s.blob != v.s.blob
    ensures e.Do? && e.request.fragment.Some? && StatusOf(hash, v, e) in {Success, IntegrityFailure}
  {
    hide Intact, Concat;
    if e.Do? && Shape(e.request) == Success && e.request.fragment.Some? {
      WriteCases(hash, v, e.request, e.env);
    }
  }

  // ---------------------------------------------------------------- time

  // The clock is a 32-bit count of milliseconds.
  predicate InTime(s: State, now: nat) {
    s.active ==> (now - s.timer) % 0x1_0000_0000 < 30_000
  }

  function Commands(events: seq<Event>): seq<Event>
    decreases |events|
  {
    if events == [] then []
    else Commands(events[..|events| - 1]) + if events[|events| - 1].Do? then [events[|events| - 1]] else []
  }

  // Ticks within 30 seconds of the last fragment taken change nothing: the run is that of its commands.
  lemma {:induction false} TimelyTicksAreHarmless(hash: seq<byte> -> seq<byte>, v: View, events: seq<Event>)
    requires Consistent(v)
    requires forall k: nat | k < |events| && events[k].TickAt? :: InTime(Run(hash, v, events[..k]).s, events[k].now)
    ensures Run(hash, v, events) == Run(hash, v, Commands(events))
    decreases |events|
  {
    hide Consistent, Step, InTime;
    if events != [] {
      var n := |events| - 1;
      assert forall k: nat | k < n :: events[..n][..k] == events[..k];
      TimelyTicksAreHarmless(hash, v, events[..n]);
      assert events == events[..n] + [events[n]];
      RunMore(hash, v, events[..n], events[n]);
      if events[n].Do? {
        RunMore(hash, v, Commands(events[..n]), events[n]);
      } else {
        assert Commands(events) == Commands(events[..n]);
        TimelyTick(hash, Run(hash, v, events[..n]), events[n].now);
      }
    }
  }

  lemma TimelyTick(hash: seq<byte> -> seq<byte>, v: View, now: nat)
    requires Consistent(v) && InTime(v.s, now)
    ensures Step(hash, v, TickAt(now)) == v
  {
  }

  lemma RunMore(hash: seq<byte> -> seq<byte>, v: View, events: seq<Event>, e: Event)
    requires Consistent(v)
    ensures Run(hash, v, events + [e]) == Step(hash, Run(hash, v, events), e)
  {
    hide Consistent, Step;
    assert (events + [e])[..|events|] == events;
  }

  // A later tick gives the upload up: the stored array stays and a continuation is refused.
  lemma LateTickEndsUpload(hash: seq<byte> -> seq<byte>, v: View, now: nat, r: Request, env: Env)
    requires Consistent(v) && !InTime(v.s, now)
    requires Shape(r) == Success && r.fragment.Some? && |r.fragment.value| <= 960
    requires r.offset.value > 0 && r.length.None?
    ensures var w := Step(hash, v, TickAt(now));
            Consistent(w) && w.s.blob == v.s.blob && !w.s.active
            && Command(hash, w.s, r, env) == (w.s, [], InvalidSeq)
  {
    StepKeepsConsistent(hash, v, TickAt(now));
  }

  // ---------------------------------------------------------------- the hash

  // An array is intact if and only if it is some data, at least one byte, and the first half of their hash.
  lemma IntactIff(hash: seq<byte> -> seq<byte>, blob: seq<byte>)
    requires forall d: seq<byte> :: |hash(d)| == 32
    ensures Intact(hash, blob) <==> exists data: seq<byte> :: data != [] && blob == data + hash(data)[..16]
  {
    if Intact(hash, blob) {
      var data := blob[..|blob| - 16];
      assert blob == data + blob[|blob| - 16..];
    }
    if data: seq<byte> :| data != [] && blob == data + hash(data)[..16] {
      assert blob[..|blob| - 16] == data && blob[|blob| - 16..] == hash(data)[..16];
    }
  }

  // ---------------------------------------------------------------- pages

  // A page is given out if and only if the request carries nothing that belongs to a write, asks for at most
  // 960 bytes, and does not start behind the array; everything else changes nothing either.
  lemma ReadIff(hash: seq<byte> -> seq<byte>, s: State, r: Request, env: Env)
    requires |s.temp| == MAX_LARGE_BLOB_SIZE && s.expectedLength <= MAX_LARGE_BLOB_SIZE && r.get.Some?
    ensures var (after, page, status) := Command(hash, s, r, env);
            && after == s
            && (status == Success <==>
                  && r.fragment.None? && r.length.None? && r.param.None? && r.protocol.None?
                  && r.get.value <= 960 && r.offset.Some? && r.offset.value <= |s.blob|)
            && (status == Success ==>
                  page == s.blob[r.offset.value..End(s.blob, r.offset.value, r.get.value)])
            && (status != Success ==> page == [])
  {
  }
}
