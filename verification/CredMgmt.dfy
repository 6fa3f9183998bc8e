/** Enumeration over several commands (src/fido/cbor_cred_mgmt.c; section 6.8 of CTAP 2.1): the RP walk
    (0x02, 0x03) and the credential walk of one RP (0x04, 0x05), each resumed by the next command. */
module CredMgmt {
  import opened Bytes
  import opened RpIndex

  const IDLE_MS: nat := 30_000

  datatype Error = PinAuthInvalid | Processing | NoCredentials | NotAllowed

  // A step of a walk in progress: somebody asks for the next element, or the idle timer is polled.
  datatype Event = Ask(call: Call) | TickAt(now: nat)

  // The clock is a 32-bit counter.
  predicate Elapsed(now: nat, since: nat) {
    (now - since) % 0x1_0000_0000 >= IDLE_MS
  }

  // ---------------------------------------------------------------- the RP walk

  // credential_rp_load: the RP identifier is read back from the file of the entry.
  datatype Load = Loaded | FileGone | Unreadable

  datatype RpState = RpState(
    index: seq<Entry>, counter: nat, total: nat, channel: nat, timer: nat, active: bool)

  datatype RpReply = Rp(hash: Hash, total: Option<nat>) | RpError(error: Error)

  // The part 0x02 and 0x03 share.
  function ServeRp(s: RpState, loads: Entry -> Load, now: nat, total: Option<nat>): (RpState, RpReply) {
    if s.counter >= |s.index| then (s, RpError(NoCredentials))
    else
      match loads(s.index[s.counter])
      case FileGone => (s, RpError(NoCredentials))
      case Unreadable => (s, RpError(Processing))
      case Loaded =>
        var more := s.counter + 1 < s.total;
        (s.(counter := s.counter + 1, timer := if more then now else s.timer, active := more),
         Rp(s.index[s.counter].hash, total))
  }

  function BeginRps(s: RpState, storage: Storage, loads: Entry -> Load, authorized: bool, call: Call)
      : (RpState, RpReply)
  {
    if !authorized then (s, RpError(PinAuthInvalid))
    else
      var (index, ok) := Indexed(Sources(storage));
      var begun := s.(index := index, counter := 0, channel := call.channel);
      if !ok then (begun, RpError(Processing))
      else if index == [] then (begun.(total := 0), RpError(NoCredentials))
      else ServeRp(begun.(total := |index|), loads, call.now, Some(|index|))
  }

  function NextRp(s: RpState, loads: Entry -> Load, call: Call): (RpState, RpReply) {
    if s.channel != call.channel || s.counter >= s.total then (s, RpError(NotAllowed))
    else ServeRp(s, loads, call.now, None)
  }

  function TickRp(s: RpState, now: nat): RpState {
    if s.active && Elapsed(now, s.timer) then s.(counter := s.total, channel := 0, active := false) else s
  }

  // The replies to the events that follow a begin.
  function WalkRps(s: RpState, loads: Entry -> Load, events: seq<Event>): seq<RpReply>
    decreases |events|
  {
    if events == [] then []
    else
      match events[0]
      case TickAt(now) => WalkRps(TickRp(s, now), loads, events[1..])
      case Ask(call) =>
        var (after, reply) := NextRp(s, loads, call);
        [reply] + WalkRps(after, loads, events[1..])
  }

  // The one-shot listing, handed out one element for each request of the owner: `k` elements are out,
  // the last at time `last`. Idling while elements remain, or running out, ends the walk for good.
  function HandOut(list: seq<Entry>, k: nat, last: nat, owner: nat, loads: Entry -> Load, events: seq<Event>)
      : seq<RpReply>
    decreases |events|
  {
    if events == [] then []
    else
      match events[0]
      case TickAt(now) =>
        var dropped := k < |list| && Elapsed(now, last);
        HandOut(list, if dropped then |list| else k, last, owner, loads, events[1..])
      case Ask(call) =>
        if k >= |list| || call.channel != owner then
          [RpError(NotAllowed)] + HandOut(list, k, last, owner, loads, events[1..])
        else
          match loads(list[k])
          case FileGone => [RpError(NoCredentials)] + HandOut(list, k, last, owner, loads, events[1..])
          case Unreadable => [RpError(Processing)] + HandOut(list, k, last, owner, loads, events[1..])
          case Loaded => [Rp(list[k].hash, None)] + HandOut(list, k + 1, call.now, owner, loads, events[1..])
  }

  // The walk stands at element k of the list. Once it is over, a timeout has reset the channel.
  predicate AtRp(s: RpState, list: seq<Entry>, k: nat, last: nat, owner: nat) {
    && s.index == list && s.total == |list| && s.counter == k <= |list|
    && (k < |list| ==> s.active && s.timer == last && s.channel == owner)
    && (k == |list| ==> !s.active)
  }

  lemma {:induction false} WalkHandsOut(s: RpState, list: seq<Entry>, k: nat, last: nat, owner: nat,
                                        loads: Entry -> Load, events: seq<Event>)
    requires AtRp(s, list, k, last, owner)
    ensures WalkRps(s, loads, events) == HandOut(list, k, last, owner, loads, events)
    decreases |events|
  {
    if events != [] {
      match events[0]
      case TickAt(now) =>
        var dropped := k < |list| && Elapsed(now, last);
        WalkHandsOut(TickRp(s, now), list, if dropped then |list| else k, last, owner, loads, events[1..]);
      case Ask(call) =>
        var (after, reply) := NextRp(s, loads, call);
        if reply.Rp? {
          WalkHandsOut(after, list, k + 1, call.now, owner, loads, events[1..]);
        } else {
          WalkHandsOut(after, list, k, last, owner, loads, events[1..]);
        }
    }
  }

  // A begin that succeeds gives the first RP of the index and the number of distinct RPs; what follows
  // is that index, handed out element by element.
  lemma RpWalkAgrees(s: RpState, storage: Storage, loads: Entry -> Load, call: Call, events: seq<Event>)
    requires BeginRps(s, storage, loads, true, call).1.Rp?
    ensures var list := Firsts(Sources(storage));
            var (after, reply) := BeginRps(s, storage, loads, true, call);
            && list != [] && Distinct(list) && Hashes(list) == Hashes(Sources(storage))
            && reply == Rp(list[0].hash, Some(|Hashes(Sources(storage))|))
            && WalkRps(after, loads, events) == HandOut(list, 1, call.now, call.channel, loads, events)
  {
    IndexedIff(Sources(storage));
    FirstsDistinct(Sources(storage));
    var list := Firsts(Sources(storage));
    var (after, _) := BeginRps(s, storage, loads, true, call);
    WalkHandsOut(after, list, 1, call.now, call.channel, loads, events);
  }

  // A begin succeeds if and only if it is authorized, there are 1 to 256 distinct RPs and the first one can be
  // read. Without authorization it changes nothing.
  lemma BeginRpsIff(s: RpState, storage: Storage, loads: Entry -> Load, authorized: bool, call: Call)
    ensures var count, firsts := |Hashes(Sources(storage))|, Firsts(Sources(storage));
            var (after, reply) := BeginRps(s, storage, loads, authorized, call);
            && (1 <= count ==> firsts != [])
            && (reply.Rp? <==> authorized && 1 <= count <= 256 && loads(firsts[0]) == Loaded)
            && (reply == RpError(NoCredentials) <==>
                  authorized && (count == 0 || (count <= 256 && loads(firsts[0]) == FileGone)))
            && (reply == RpError(PinAuthInvalid) <==> !authorized) && (!authorized ==> after == s)
            && (reply == RpError(Processing) <==>
                  authorized && (count > 256 || (count > 0 && loads(firsts[0]) == Unreadable)))
  {
    IndexedIff(Sources(storage));
    FirstsDistinct(Sources(storage));
  }

  // A begin that finds too many RPs has already reset the counter and replaced the index, under the old
  // total: the next request is refused if and only if there was none.
  lemma OverfullBeginIff(s: RpState, storage: Storage, loads: Entry -> Load, call: Call)
    requires |Hashes(Sources(storage))| > MAX_RESIDENT_CREDENTIALS
    ensures var (after, reply) := BeginRps(s, storage, loads, true, call);
            && reply == RpError(Processing) && after.index == Indexed(Sources(storage)).0
            && (NextRp(after, loads, call).1 == RpError(NotAllowed) <==> s.total == 0)
  {
    IndexedIff(Sources(storage));
  }

  // 512 RPs, one for each slot of both scans.
  const OVERFULL: Storage := Storage(
    seq(MAX_RESIDENT_CREDENTIALS, i requires 0 <= i < MAX_RESIDENT_CREDENTIALS => Some([i, 0])),
    seq(MAX_RESIDENT_CREDENTIALS, i requires 0 <= i < MAX_RESIDENT_CREDENTIALS => Some([i, 1])))

  // A begin that was answered with an error, and a request after it that is served all the same.
  lemma OverfullBeginCanGoOn(call: Call)
    ensures var s := RpState([], 1, 1, 0, 0, false);
            var (after, reply) := BeginRps(s, OVERFULL, _ => Loaded, true, call);
            && RpIndex.WellFormed(OVERFULL) && reply == RpError(Processing)
            && NextRp(after, _ => Loaded, call).1 == Rp([0, 0], None)
  {
    var sources := Sources(OVERFULL);
    FullSlots(OVERFULL.legacy, EF_RP);
    FullSlots(OVERFULL.markers, EF_CRED);
    assert |sources| == 512 && sources[0].hash == [0, 0];
    assert forall i | 0 <= i < 512 :: sources[i].hash == if i < 256 then [i, 0] else [i - 256, 1];
    AllFirst(sources);
    IndexStarts(sources);
    FirstsDistinct(sources);
    IndexedIff(sources);
    OverfullBeginIff(RpState([], 1, 1, 0, 0, false), OVERFULL, _ => Loaded, call);
  }

  function Asks(call: Call, n: nat): seq<Event>
    decreases n
  {
    if n == 0 then [] else [Ask(call)] + Asks(call, n - 1)
  }

  function RpReplies(list: seq<Entry>): seq<RpReply>
    decreases |list|
  {
    if list == [] then [] else [Rp(list[0].hash, None)] + RpReplies(list[1..])
  }

  // As many requests as there are elements left return each of them once, in order; one more is refused.
  lemma {:induction false} HandOutAll(list: seq<Entry>, k: nat, last: nat, loads: Entry -> Load, call: Call)
    requires k <= |list| && forall e <- list :: loads(e) == Loaded
    ensures HandOut(list, k, last, call.channel, loads, Asks(call, |list| - k)) == RpReplies(list[k..])
    ensures HandOut(list, |list|, last, call.channel, loads, [Ask(call)]) == [RpError(NotAllowed)]
    decreases |list| - k
  {
    if k < |list| {
      assert Asks(call, |list| - k)[1..] == Asks(call, |list| - k - 1);
      assert list[k..][1..] == list[k + 1..] && list[k] in list;
      HandOutAll(list, k + 1, call.now, loads, call);
    }
    assert [Ask(call)][1..] == [];
  }

  // ---------------------------------------------------------------- the credential walk

  // A credential as it is reported; `usable` when its public key is cached or can be derived.
  datatype Credential = Credential(id: seq<byte>, usable: bool)

  // What the scan makes of a slot for one RP: nothing to report, a credential, or one that fails to load.
  datatype Slot = Skip | Broken | Cred(cred: Credential)

  datatype CredState = CredState(
    counter: nat, total: nat, scanSlot: nat, channel: nat, saved: Option<Hash>, timer: nat, active: bool)

  datatype CredReply = Found(cred: Credential, total: Option<nat>) | CredError(error: Error)

  // All slots, seen for the RP with a given hash.
  type View = v: Hash -> seq<Slot> | forall h :: |v(h)| == MAX_RESIDENT_CREDENTIALS witness NoSlots

  function NoSlots(h: Hash): seq<Slot> {
    seq(MAX_RESIDENT_CREDENTIALS, _ => Skip)
  }

  // The first slot from `i` on that is not skipped.
  function FirstFrom(slots: seq<Slot>, i: nat): (j: nat)
    requires i <= |slots|
    ensures i <= j <= |slots|
    ensures j < |slots| ==> slots[j] != Skip
    ensures forall k | i <= k < j :: slots[k] == Skip
    decreases |slots| - i
  {
    if i == |slots| || slots[i] != Skip then i else FirstFrom(slots, i + 1)
  }

  function FirstBroken(slots: seq<Slot>): (j: nat)
    ensures j <= |slots| && (j < |slots| ==> slots[j] == Broken)
    ensures forall k | 0 <= k < j :: slots[k] != Broken
  {
    if slots == [] || slots[0] == Broken then 0 else 1 + FirstBroken(slots[1..])
  }

  // The credentials in slot order: the one-shot listing.
  function Listing(slots: seq<Slot>): (list: seq<Credential>)
    decreases |slots|
  {
    if slots == [] then []
    else if slots[0].Cred? then [slots[0].cred] + Listing(slots[1..])
    else Listing(slots[1..])
  }

  // One more credential is reported; the saved RP is replaced when there is more to come.
  function Advanced(s: CredState, hash: Hash, now: nat): CredState {
    if s.counter + 1 <= s.total then s.(counter := s.counter + 1, saved := Some(hash), timer := now, active := true)
    else s.(counter := s.counter + 1, active := false)
  }

  // 0x04: count every credential of the RP and report the first. The saved RP is only replaced when
  // there is more to come.
  function BeginCreds(s: CredState, hash: Hash, view: View, authorized: bool, call: Call): (CredState, CredReply) {
    if !authorized then (s, CredError(PinAuthInvalid))
    else
      var slots := view(hash);
      var seen := slots[..FirstBroken(slots)];
      var first := FirstFrom(seen, 0);
      var list := Listing(seen);
      var begun := s.(counter := 1, total := |list|, scanSlot := if first < |seen| then first + 1 else 0,
                      channel := call.channel);
      if |seen| < |slots| then (begun, CredError(NotAllowed))
      else if list == [] then (begun, CredError(NoCredentials))
      else if !list[0].usable then (begun, CredError(NotAllowed))
      else (Advanced(begun, hash, call.now), Found(list[0], Some(|list|)))
  }

  // 0x05: resume the scan. Unless more is to come the saved RP hash is released; `stale` is what
  // reading a released one gives.
  function NextCred(s: CredState, view: View, stale: Hash, call: Call): (CredState, CredReply) {
    if s.channel != call.channel || s.counter > s.total then (s, CredError(NotAllowed))
    else
      var hash := if s.saved.Some? then s.saved.value else stale;
      var slots := view(hash);
      var j := if s.scanSlot <= |slots| then FirstFrom(slots, s.scanSlot) else |slots|;
      if j == |slots| then (s.(saved := None), CredError(NoCredentials))
      else if slots[j] == Broken then (s.(saved := None), CredError(NotAllowed))
      else if !slots[j].cred.usable then (s.(scanSlot := j + 1, saved := None), CredError(NotAllowed))
      else (Advanced(s.(scanSlot := j + 1, saved := None), hash, call.now), Found(slots[j].cred, None))
  }

  function TickCreds(s: CredState, now: nat): CredState {
    if s.active && Elapsed(now, s.timer) then s.(counter := s.total + 1, scanSlot := 0, channel := 0, active := false)
    else s
  }

  function WalkCreds(s: CredState, view: View, stale: Hash, events: seq<Event>): seq<CredReply>
    decreases |events|
  {
    if events == [] then []
    else
      match events[0]
      case TickAt(now) => WalkCreds(TickCreds(s, now), view, stale, events[1..])
      case Ask(call) =>
        var (after, reply) := NextCred(s, view, stale, call);
        [reply] + WalkCreds(after, view, stale, events[1..])
  }

  // The one-shot listing handed out, as for RPs.
  function HandOutCreds(list: seq<Credential>, k: nat, last: nat, owner: nat, events: seq<Event>): seq<CredReply>
    decreases |events|
  {
    if events == [] then []
    else
      match events[0]
      case TickAt(now) =>
        var dropped := k < |list| && Elapsed(now, last);
        HandOutCreds(list, if dropped then |list| else k, last, owner, events[1..])
      case Ask(call) =>
        if k >= |list| || call.channel != owner then
          [CredError(NotAllowed)] + HandOutCreds(list, k, last, owner, events[1..])
        else
          [Found(list[k], None)] + HandOutCreds(list, k + 1, call.now, owner, events[1..])
  }

  // The resumed scan stands before element k of the listing.
  predicate AtCred(s: CredState, slots: seq<Slot>, hash: Hash, k: nat, last: nat, owner: nat) {
    var list := Listing(slots);
    && s.total == |list| && s.counter == k + 1 <= |list| + 1
    && (k < |list| ==>
          && s.active && s.timer == last && s.channel == owner && s.saved == Some(hash)
          && s.scanSlot <= |slots| && Listing(slots[s.scanSlot..]) == list[k..])
    && (k == |list| ==> !s.active)
  }

  // Skipping to the next credential does not change what is left to list.
  lemma {:induction false} ScanFindsNext(slots: seq<Slot>, i: nat)
    requires i <= |slots| && forall k | 0 <= k < |slots| :: slots[k] != Broken
    ensures var j := FirstFrom(slots, i);
            if j == |slots| then Listing(slots[i..]) == []
            else slots[j].Cred? && Listing(slots[i..]) == [slots[j].cred] + Listing(slots[j + 1..])
    decreases |slots| - i
  {
    if i < |slots| {
      assert slots[i..][1..] == slots[i + 1..];
      if slots[i] == Skip {
        ScanFindsNext(slots, i + 1);
      }
    }
  }

  lemma NextCredStep(s: CredState, view: View, stale: Hash, hash: Hash, k: nat, last: nat, owner: nat, call: Call)
    requires AtCred(s, view(hash), hash, k, last, owner) && FirstBroken(view(hash)) == MAX_RESIDENT_CREDENTIALS
    requires forall c <- Listing(view(hash)) :: c.usable
    ensures var list := Listing(view(hash));
            var (after, reply) := NextCred(s, view, stale, call);
            if k < |list| && call.channel == owner
            then reply == Found(list[k], None) && AtCred(after, view(hash), hash, k + 1, call.now, owner)
            else reply == CredError(NotAllowed) && AtCred(after, view(hash), hash, k, last, owner)
  {
    var slots, list := view(hash), Listing(view(hash));
    if k < |list| && call.channel == owner {
      ScanFindsNext(slots, s.scanSlot);
      var j := FirstFrom(slots, s.scanSlot);
      assert list[k..][0] == list[k] && list[k] in list;
      assert list[k..][1..] == list[k + 1..];
      assert Listing(slots[s.scanSlot..])[1..] == Listing(slots[j + 1..]);
    }
  }

  lemma {:induction false} CredWalkHandsOut(s: CredState, view: View, stale: Hash, hash: Hash, k: nat, last: nat,
                                            owner: nat, events: seq<Event>)
    requires AtCred(s, view(hash), hash, k, last, owner) && FirstBroken(view(hash)) == MAX_RESIDENT_CREDENTIALS
    requires forall c <- Listing(view(hash)) :: c.usable
    ensures WalkCreds(s, view, stale, events) == HandOutCreds(Listing(view(hash)), k, last, owner, events)
    decreases |events|
  {
    if events != [] {
      var list := Listing(view(hash));
      match events[0]
      case TickAt(now) =>
        var dropped := k < |list| && Elapsed(now, last);
        CredWalkHandsOut(TickCreds(s, now), view, stale, hash, if dropped then |list| else k, last, owner, events[1..]);
      case Ask(call) =>
        NextCredStep(s, view, stale, hash, k, last, owner, call);
        var (after, reply) := NextCred(s, view, stale, call);
        if reply.Found? {
          CredWalkHandsOut(after, view, stale, hash, k + 1, call.now, owner, events[1..]);
        } else {
          CredWalkHandsOut(after, view, stale, hash, k, last, owner, events[1..]);
        }
    }
  }

  lemma {:induction false} FirstIsListed(slots: seq<Slot>)
    requires forall k | 0 <= k < |slots| :: slots[k] != Broken
    ensures var j := FirstFrom(slots, 0);
            if j == |slots| then Listing(slots) == []
            else slots[j].Cred? && Listing(slots) == [slots[j].cred] + Listing(slots[j + 1..])
  {
    ScanFindsNext(slots, 0);
    assert slots[0..] == slots;
  }

  // A begin succeeds if and only if it is authorized, every slot of the RP can be read, there is a credential,
  // and the first one is usable. Without authorization it changes nothing.
  lemma BeginCredsIff(s: CredState, hash: Hash, view: View, authorized: bool, call: Call)
    ensures var readable := forall k | 0 <= k < MAX_RESIDENT_CREDENTIALS :: view(hash)[k] != Broken;
            var list := Listing(view(hash));
            var (after, reply) := BeginCreds(s, hash, view, authorized, call);
            && (reply.Found? <==> authorized && readable && list != [] && list[0].usable)
            && (reply == CredError(NoCredentials) <==> authorized && readable && list == [])
            && (reply == CredError(NotAllowed) <==> authorized && (!readable || (list != [] && !list[0].usable)))
            && (reply == CredError(PinAuthInvalid) <==> !authorized) && (!authorized ==> after == s)
  {
    var slots := view(hash);
    var n := FirstBroken(slots);
    if n == |slots| {
      assert slots[..n] == slots;
    }
  }

  // A begin that fails still leaves the walk open if and only if some credential was counted before.
  lemma FailedBeginIff(s: CredState, hash: Hash, view: View, call: Call)
    requires BeginCreds(s, hash, view, true, call).1.CredError?
    ensures var after := BeginCreds(s, hash, view, true, call).0;
            && after.channel == call.channel && after.saved == s.saved
            && (after.counter <= after.total <==> exists k :: 0 <= k < FirstBroken(view(hash)) && view(hash)[k].Cred?)
  {
    ListingNonEmptyIff(view(hash)[..FirstBroken(view(hash))]);
  }

  lemma {:induction false} ListingNonEmptyIff(slots: seq<Slot>)
    ensures Listing(slots) != [] <==> exists k :: 0 <= k < |slots| && slots[k].Cred?
    decreases |slots|
  {
    if slots != [] {
      ListingNonEmptyIff(slots[1..]);
      if exists k :: 0 <= k < |slots| && slots[k].Cred? {
        var k :| 0 <= k < |slots| && slots[k].Cred?;
        assert k > 0 ==> slots[1..][k - 1].Cred?;
      }
    }
  }

  // One RP for all hashes, with these slots and nothing behind them.
  function Showing(slots: seq<Slot>): (view: View)
    requires |slots| <= MAX_RESIDENT_CREDENTIALS
    ensures forall h :: view(h) == slots + seq(MAX_RESIDENT_CREDENTIALS - |slots|, _ => Skip)
  {
    var padded := slots + seq(MAX_RESIDENT_CREDENTIALS - |slots|, _ => Skip);
    (h: Hash) => padded
  }

  const FRESH_CREDS: CredState := CredState(1, 0, 0, 0, None, 0, false)

  // Two credentials and then a broken slot: the begin fails, and the next request reports the second.
  lemma FailedBeginCanGoOn(hash: Hash, stale: Hash, a: Credential, b: Credential, call: Call)
    requires b.usable
    ensures var view := Showing([Cred(a), Cred(b), Broken]);
            var (after, reply) := BeginCreds(FRESH_CREDS, hash, view, true, call);
            reply == CredError(NotAllowed) && NextCred(after, view, stale, call).1 == Found(b, None)
  {
    var slots := Showing([Cred(a), Cred(b), Broken])(hash);
    assert slots[0] == Cred(a) && slots[1] == Cred(b) && slots[2] == Broken;
    assert FirstBroken(slots) == 2 by { assert slots[1..][1..][0] == Broken; }
    assert slots[..2] == [Cred(a), Cred(b)];
    assert FirstFrom(slots, 1) == 1;
  }

  // Two credentials of which the second is not usable: it is refused, and the saved RP is gone.
  lemma EnumerationCanFail(hash: Hash, stale: Hash, a: Credential, b: Credential, call: Call)
    requires a.usable && !b.usable
    ensures var view := Showing([Cred(a), Cred(b)]);
            var (after, reply) := BeginCreds(FRESH_CREDS, hash, view, true, call);
            && reply == Found(a, Some(2)) && after.saved == Some(hash)
            && NextCred(after, view, stale, call).1 == CredError(NotAllowed)
            && NextCred(after, view, stale, call).0.saved == None
  {
    var slots := Showing([Cred(a), Cred(b)])(hash);
    assert slots[0] == Cred(a) && slots[1] == Cred(b);
    NoBroken(slots);
    assert slots[..|slots|] == slots && slots[0..] == slots;
    assert slots[1..][0] == Cred(b);
    ListingOfSkips(slots[1..][1..]);
    assert Listing(slots) == [a, b];
    assert FirstFrom(slots, 0) == 0 && FirstFrom(slots, 1) == 1;
  }

  lemma NoBroken(slots: seq<Slot>)
    requires forall k | 0 <= k < |slots| :: slots[k] != Broken
    ensures FirstBroken(slots) == |slots|
  {
  }

  lemma {:induction false} ListingOfSkips(slots: seq<Slot>)
    requires forall k | 0 <= k < |slots| :: slots[k] == Skip
    ensures Listing(slots) == []
    decreases |slots|
  {
    if slots != [] {
      ListingOfSkips(slots[1..]);
    }
  }

  // A begin that succeeds gives the first credential and the true total, and leaves the walk at the second.
  lemma BeginCredsStarts(s: CredState, hash: Hash, view: View, call: Call)
    requires BeginCreds(s, hash, view, true, call).1.Found?
    ensures var list := Listing(view(hash));
            var (after, reply) := BeginCreds(s, hash, view, true, call);
            && list != [] && list[0].usable && reply == Found(list[0], Some(|list|))
            && FirstBroken(view(hash)) == MAX_RESIDENT_CREDENTIALS
            && AtCred(after, view(hash), hash, 1, call.now, call.channel)
  {
    var slots := view(hash);
    assert slots[..|slots|] == slots;
    FirstIsListed(slots);
    var list := Listing(slots);
    assert list[1..] == Listing(slots[FirstFrom(slots, 0) + 1..]);
  }

  function CredReplies(list: seq<Credential>): seq<CredReply>
    decreases |list|
  {
    if list == [] then [] else [Found(list[0], None)] + CredReplies(list[1..])
  }

  lemma {:induction false} HandOutAllCreds(list: seq<Credential>, k: nat, last: nat, call: Call)
    requires k <= |list|
    ensures HandOutCreds(list, k, last, call.channel, Asks(call, |list| - k)) == CredReplies(list[k..])
    decreases |list| - k
  {
    if k < |list| {
      assert Asks(call, |list| - k)[1..] == Asks(call, |list| - k - 1);
      assert list[k..][1..] == list[k + 1..];
      HandOutAllCreds(list, k + 1, call.now, call);
    }
  }

  lemma {:induction false} ReportedIsUsable(s: CredState, view: View, stale: Hash, events: seq<Event>)
    ensures forall r <- WalkCreds(s, view, stale, events) :: r.Found? ==> r.cred.usable
    decreases |events|
  {
    if events != [] {
      match events[0]
      case TickAt(now) => ReportedIsUsable(TickCreds(s, now), view, stale, events[1..]);
      case Ask(call) => ReportedIsUsable(NextCred(s, view, stale, call).0, view, stale, events[1..]);
    }
  }

  lemma {:induction false} RepliesContain(list: seq<Credential>, i: nat)
    requires i < |list|
    ensures Found(list[i], None) in CredReplies(list)
    decreases i
  {
    if i > 0 {
      RepliesContain(list[1..], i - 1);
      assert list[1..][i - 1] == list[i];
    }
  }

  // With nothing changed in between, begin and |list| - 1 requests report every credential of the RP once,
  // in slot order, if and only if all of them are usable.
  lemma EnumerationIff(s: CredState, hash: Hash, view: View, stale: Hash, call: Call)
    requires BeginCreds(s, hash, view, true, call).1.Found?
    ensures var list := Listing(view(hash));
            var (after, _) := BeginCreds(s, hash, view, true, call);
            list != [] && (WalkCreds(after, view, stale, Asks(call, |list| - 1)) == CredReplies(list[1..])
                           <==> forall c <- list :: c.usable)
  {
    BeginCredsStarts(s, hash, view, call);
    var list := Listing(view(hash));
    var (after, _) := BeginCreds(s, hash, view, true, call);
    var events := Asks(call, |list| - 1);
    if forall c <- list :: c.usable {
      CredWalkHandsOut(after, view, stale, hash, 1, call.now, call.channel, events);
      HandOutAllCreds(list, 1, call.now, call);
    }
    if WalkCreds(after, view, stale, events) == CredReplies(list[1..]) {
      forall c | c in list
        ensures c.usable
      {
        var i :| 0 <= i < |list| && list[i] == c;
        if i > 0 {
          RepliesContain(list[1..], i - 1);
          ReportedIsUsable(after, view, stale, events);
          assert list[1..][i - 1] == c;
        }
      }
    }
  }

  // Whoever asks, and however long it takes: what follows a begin is the listing handed out, and after
  // its end or a timeout every request is refused.
  lemma CredWalkAgrees(s: CredState, hash: Hash, view: View, stale: Hash, call: Call, events: seq<Event>)
    requires BeginCreds(s, hash, view, true, call).1.Found?
    requires forall c <- Listing(view(hash)) :: c.usable
    ensures var list := Listing(view(hash));
            var (after, reply) := BeginCreds(s, hash, view, true, call);
            && list != [] && reply == Found(list[0], Some(|list|))
            && WalkCreds(after, view, stale, events) == HandOutCreds(list, 1, call.now, call.channel, events)
  {
    BeginCredsStarts(s, hash, view, call);
    var (after, _) := BeginCreds(s, hash, view, true, call);
    CredWalkHandsOut(after, view, stale, hash, 1, call.now, call.channel, events);
  }

  lemma {:induction false} OverIsOver(list: seq<Credential>, last: nat, owner: nat, events: seq<Event>)
    ensures forall r <- HandOutCreds(list, |list|, last, owner, events) :: r == CredError(NotAllowed)
    decreases |events|
  {
    if events != [] {
      OverIsOver(list, last, owner, events[1..]);
    }
  }

  lemma {:induction false} ListingAppend(slots: seq<Slot>, slot: Slot)
    ensures Listing(slots + [slot]) == if slot.Cred? then Listing(slots) + [slot.cred] else Listing(slots)
    decreases |slots|
  {
    if slots != [] {
      assert (slots + [slot])[1..] == slots[1..] + [slot];
      ListingAppend(slots[1..], slot);
    }
  }

  // ---------------------------------------------------------------- the command handler and its globals

  class CredentialManager {
    const rps: RpTable
    var rpCounter: nat
    var rpTotal: nat
    var rpChannel: nat
    var rpTimer: nat
    var rpActive: bool
    var credCounter: nat
    var credTotal: nat
    var credScanSlot: nat
    var credChannel: nat
    var rpIdHash: Option<Hash>
    var credTimer: nat
    var credActive: bool

    ghost predicate Valid()
      reads rps, rps.hashes, rps.fids
    {
      rps.Valid()
    }

    ghost function Rps(): RpState
      reads `rpCounter, `rpTotal, `rpChannel, `rpTimer, `rpActive, rps, rps.hashes, rps.fids
      requires rps.Valid()
    {
      RpState(rps.Entries(), rpCounter, rpTotal, rpChannel, rpTimer, rpActive)
    }

    ghost function Creds(): CredState
      reads `credCounter, `credTotal, `credScanSlot, `credChannel, `rpIdHash, `credTimer, `credActive
    {
      CredState(credCounter, credTotal, credScanSlot, credChannel, rpIdHash, credTimer, credActive)
    }

    constructor ()
      ensures Valid() && fresh(rps) && fresh(rps.hashes) && fresh(rps.fids)
      ensures Rps() == RpState([], 1, 0, 0, 0, false)
      ensures Creds() == CredState(1, 0, 0, 0, None, 0, false)
    {
      rps := new RpTable();
      rpCounter, rpTotal, rpChannel, rpTimer, rpActive := 1, 0, 0, 0, false;
      credCounter, credTotal, credScanSlot, credChannel := 1, 0, 0, 0;
      rpIdHash, credTimer, credActive := None, 0, false;
    }

    method OnTick(now: nat)
      requires Valid()
      modifies this
      ensures Valid() && Rps() == TickRp(old(Rps()), now) && Creds() == TickCreds(old(Creds()), now)
    {
      hide TickRp, TickCreds, Rps, Creds;
      DropRps(now);
      DropCreds(now);
    }

    method DropRps(now: nat)
      requires Valid()
      modifies `rpCounter, `rpChannel, `rpActive
      ensures Rps() == TickRp(old(Rps()), now)
    {
      if rpActive && (now - rpTimer) % 0x1_0000_0000 >= IDLE_MS {
        rpCounter := rpTotal;
        rpChannel := 0;
        rpActive := false;
      }
    }

    method DropCreds(now: nat)
      modifies `credCounter, `credScanSlot, `credChannel, `credActive
      ensures Creds() == TickCreds(old(Creds()), now)
    {
      if credActive && (now - credTimer) % 0x1_0000_0000 >= IDLE_MS {
        credCounter := credTotal + 1;
        credScanSlot := 0;
        credChannel := 0;
        credActive := false;
      }
    }

    method EnumerateRps(begin: bool, storage: Storage, loads: Entry -> Load, authorized: bool, call: Call)
      returns (reply: RpReply)
      requires Valid() && WellFormed(storage)
      modifies this, rps, rps.hashes, rps.fids
      ensures Valid() && Creds() == old(Creds())
      ensures (Rps(), reply) == if begin then BeginRps(old(Rps()), storage, loads, authorized, call)
                                else NextRp(old(Rps()), loads, call)
    {
      var total := None;
      if begin {
        if !authorized {
          return RpError(PinAuthInvalid);
        }
        rpCounter := 0;
        rpChannel := call.channel;
        var ok := rps.Count(storage);
        if !ok {
          return RpError(Processing);
        }
        rpTotal := rps.count;
        if rpTotal == 0 {
          return RpError(NoCredentials);
        }
        total := Some(rpTotal);
      } else if rpChannel != call.channel || rpCounter >= rpTotal {
        return RpError(NotAllowed);
      }
      reply := Serve(loads, total, call.now);
    }

    // The part 0x02 and 0x03 share.
    method Serve(loads: Entry -> Load, total: Option<nat>, now: nat) returns (reply: RpReply)
      requires Valid()
      modifies `rpCounter, `rpTimer, `rpActive
      ensures (Rps(), reply) == ServeRp(old(Rps()), loads, now, total)
    {
      if rpCounter >= rps.count {
        return RpError(NoCredentials);
      }
      var entry := Entry(rps.hashes[rpCounter], rps.fids[rpCounter]);
      match loads(entry) {
        case FileGone => return RpError(NoCredentials);
        case Unreadable => return RpError(Processing);
        case Loaded =>
      }
      rpCounter := rpCounter + 1;
      if rpCounter < rpTotal {
        rpTimer := now;
        rpActive := true;
      } else {
        rpActive := false;
      }
      reply := Rp(entry.hash, total);
    }

    // The scan of 0x04: count every credential, note the slot after the first.
    method CountCreds(slots: seq<Slot>) returns (ok: bool, first: Option<Credential>)
      modifies this`credTotal, this`credScanSlot
      ensures ok == (FirstBroken(slots) == |slots|)
      ensures var seen := slots[..FirstBroken(slots)];
              && credTotal == |Listing(seen)|
              && credScanSlot == (if FirstFrom(seen, 0) < |seen| then FirstFrom(seen, 0) + 1 else 0)
              && first == (if Listing(seen) == [] then None else Some(Listing(seen)[0]))
    {
      credTotal, credScanSlot, first := 0, 0, None;
      var i := 0;
      while i < |slots| && slots[i] != Broken
        invariant 0 <= i <= |slots| && forall k | 0 <= k < i :: slots[k] != Broken
        invariant credTotal == |Listing(slots[..i])|
        invariant first == if credTotal == 0 then None else Some(Listing(slots[..i])[0])
        invariant first.None? ==> credScanSlot == 0 && forall k | 0 <= k < i :: slots[k] == Skip
        invariant first.Some? ==>
                    && 1 <= credScanSlot <= i && slots[credScanSlot - 1] != Skip
                    && forall k | 0 <= k < credScanSlot - 1 :: slots[k] == Skip
      {
        assert slots[..i + 1] == slots[..i] + [slots[i]];
        ListingAppend(slots[..i], slots[i]);
        if slots[i].Cred? {
          if first.None? {
            first := Some(slots[i].cred);
            credScanSlot := i + 1;
          }
          credTotal := credTotal + 1;
        }
        i := i + 1;
      }
      assert i == FirstBroken(slots);
      ok := i == |slots|;
    }

    method BeginCredentials(hash: Hash, view: View, authorized: bool, call: Call) returns (reply: CredReply)
      requires Valid()
      modifies `credCounter, `credTotal, `credScanSlot, `credChannel, `rpIdHash, `credTimer, `credActive
      ensures Valid() && Rps() == old(Rps())
      ensures (Creds(), reply) == BeginCreds(old(Creds()), hash, view, authorized, call)
    {
      hide Rps, Valid, Listing, FirstBroken, Advanced;
      if !authorized {
        return CredError(PinAuthInvalid);
      }
      credCounter := 1;
      credChannel := call.channel;
      var ok, first := CountCreds(view(hash));
      if !ok {
        return CredError(NotAllowed);
      }
      if first.None? {
        return CredError(NoCredentials);
      }
      if !first.value.usable {
        return CredError(NotAllowed);
      }
      Advance(hash, call.now);
      reply := Found(first.value, Some(credTotal));
    }

    method Advance(hash: Hash, now: nat)
      modifies `credCounter, `rpIdHash, `credTimer, `credActive
      ensures Creds() == Advanced(old(Creds()), hash, now)
    {
      credCounter := credCounter + 1;
      if credCounter <= credTotal {
        rpIdHash := Some(hash);
        credTimer := now;
        credActive := true;
      } else {
        credActive := false;
      }
    }

    // The resumed scan: the next slot that is not skipped.
    method NextSlot(slots: seq<Slot>) returns (i: nat)
      ensures i == if credScanSlot <= |slots| then FirstFrom(slots, credScanSlot) else credScanSlot
    {
      i := credScanSlot;
      while i < |slots| && slots[i] == Skip
        invariant credScanSlot <= i && (i == credScanSlot || i <= |slots|)
        invariant forall k | credScanSlot <= k < i :: slots[k] == Skip
      {
        i := i + 1;
      }
    }

    method NextCredential(view: View, stale: Hash, call: Call) returns (reply: CredReply)
      requires Valid()
      modifies `credCounter, `credTotal, `credScanSlot, `credChannel, `rpIdHash, `credTimer, `credActive
      ensures Valid() && Rps() == old(Rps())
      ensures (Creds(), reply) == NextCred(old(Creds()), view, stale, call)
    {
      hide Rps, Valid, FirstFrom, Advanced;
      if credChannel != call.channel || credCounter > credTotal {
        return CredError(NotAllowed);
      }
      var hash := if rpIdHash.Some? then rpIdHash.value else stale;
      rpIdHash := None;
      var slots := view(hash);
      var i := NextSlot(slots);
      if i >= |slots| {
        return CredError(NoCredentials);
      }
      if slots[i] == Broken {
        return CredError(NotAllowed);
      }
      credScanSlot := i + 1;
      if !slots[i].cred.usable {
        return CredError(NotAllowed);
      }
      Advance(hash, call.now);
      reply := Found(slots[i].cred, None);
    }
  }
}
