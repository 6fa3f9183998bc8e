/** How long an enumeration may rest between two requests (src/fido/cbor_cred_mgmt.c). */
module PatientWalk {
  import opened Bytes
  import opened CredMgmt
  import opened RpIndex

  // The owner of a walk asks whenever it likes, and the idle timer is only polled within 30 seconds of the
  // last answer, which was given at `last`; the clock is a 32-bit count of milliseconds.
  predicate Patient(last: nat, owner: nat, events: seq<Event>)
    decreases |events|
  {
    events == [] ||
    match events[0]
    case TickAt(now) => (now - last) % 0x1_0000_0000 < 30_000 && Patient(last, owner, events[1..])
    case Ask(call) => call.channel == owner && Patient(call.now, owner, events[1..])
  }

  function Requests(events: seq<Event>): nat {
    if events == [] then 0 else (if events[0].Ask? then 1 else 0) + Requests(events[1..])
  }

  lemma {:induction false} PatientRps(list: seq<Entry>, k: nat, last: nat, owner: nat, loads: Entry -> Load,
                                      events: seq<Event>)
    requires Patient(last, owner, events) && k + Requests(events) == |list|
    requires forall e <- list :: loads(e) == Loaded
    ensures HandOut(list, k, last, owner, loads, events) == RpReplies(list[k..])
    decreases |events|
  {
    if events != [] {
      match events[0]
      case TickAt(now) => PatientRps(list, k, last, owner, loads, events[1..]);
      case Ask(call) =>
        assert list[k] in list && list[k..][0] == list[k] && list[k..][1..] == list[k + 1..];
        PatientRps(list, k + 1, call.now, owner, loads, events[1..]);
    }
  }

  lemma {:induction false} PatientCreds(list: seq<Credential>, k: nat, last: nat, owner: nat, events: seq<Event>)
    requires Patient(last, owner, events) && k + Requests(events) == |list|
    ensures HandOutCreds(list, k, last, owner, events) == CredReplies(list[k..])
    decreases |events|
  {
    if events != [] {
      match events[0]
      case TickAt(now) => PatientCreds(list, k, last, owner, events[1..]);
      case Ask(call) =>
        assert list[k..][0] == list[k] && list[k..][1..] == list[k + 1..];
        PatientCreds(list, k + 1, call.now, owner, events[1..]);
    }
  }

  // After a begin, the other RPs come one by one, each once, although the timer is polled in between.
  lemma PatientOwnerGetsAllRps(s: RpState, storage: Storage, loads: Entry -> Load, call: Call, events: seq<Event>)
    requires BeginRps(s, storage, loads, true, call).1.Rp? && Patient(call.now, call.channel, events)
    requires 1 + Requests(events) == |Hashes(Sources(storage))|
    requires forall e <- Firsts(Sources(storage)) :: loads(e) == Loaded
    ensures var list := Firsts(Sources(storage));
            list != [] && WalkRps(BeginRps(s, storage, loads, true, call).0, loads, events) == RpReplies(list[1..])
  {
    RpWalkAgrees(s, storage, loads, call, events);
    FirstsDistinct(Sources(storage));
    PatientRps(Firsts(Sources(storage)), 1, call.now, call.channel, loads, events);
  }

  // The same for the credentials of an RP.
  lemma PatientOwnerGetsAllCreds(s: CredState, hash: Hash, view: View, stale: Hash, call: Call, events: seq<Event>)
    requires BeginCreds(s, hash, view, true, call).1.Found? && Patient(call.now, call.channel, events)
    requires 1 + Requests(events) == |Listing(view(hash))| && forall c <- Listing(view(hash)) :: c.usable
    ensures var list := Listing(view(hash));
            var after := BeginCreds(s, hash, view, true, call).0;
            list != [] && WalkCreds(after, view, stale, events) == CredReplies(list[1..])
  {
    CredWalkAgrees(s, hash, view, stale, call, events);
    PatientCreds(Listing(view(hash)), 1, call.now, call.channel, events);
  }

  lemma {:induction false} RpsAreOver(list: seq<Entry>, last: nat, owner: nat, loads: Entry -> Load, events: seq<Event>)
    ensures forall r <- HandOut(list, |list|, last, owner, loads, events) :: r == RpError(NotAllowed)
    decreases |events|
  {
    if events != [] {
      RpsAreOver(list, last, owner, loads, events[1..]);
    }
  }

  // A poll 30 seconds after the begin, with RPs or credentials still to come, ends either walk for good.
  lemma LatePollEndsRps(s: RpState, storage: Storage, loads: Entry -> Load, call: Call, now: nat, events: seq<Event>)
    requires BeginRps(s, storage, loads, true, call).1.Rp? && |Hashes(Sources(storage))| > 1
    requires (now - call.now) % 0x1_0000_0000 >= 30_000
    ensures forall r <- WalkRps(BeginRps(s, storage, loads, true, call).0, loads, [TickAt(now)] + events) ::
              r == RpError(NotAllowed)
  {
    var list := Firsts(Sources(storage));
    RpWalkAgrees(s, storage, loads, call, [TickAt(now)] + events);
    FirstsDistinct(Sources(storage));
    assert ([TickAt(now)] + events)[1..] == events;
    RpsAreOver(list, call.now, call.channel, loads, events);
  }

  lemma LatePollEndsCreds(s: CredState, hash: Hash, view: View, stale: Hash, call: Call, now: nat, events: seq<Event>)
    requires BeginCreds(s, hash, view, true, call).1.Found? && |Listing(view(hash))| > 1
    requires (now - call.now) % 0x1_0000_0000 >= 30_000 && forall c <- Listing(view(hash)) :: c.usable
    ensures forall r <- WalkCreds(BeginCreds(s, hash, view, true, call).0, view, stale, [TickAt(now)] + events) ::
              r == CredError(NotAllowed)
  {
    var list := Listing(view(hash));
    CredWalkAgrees(s, hash, view, stale, call, [TickAt(now)] + events);
    assert ([TickAt(now)] + events)[1..] == events;
    OverIsOver(list, call.now, call.channel, events);
  }
}
