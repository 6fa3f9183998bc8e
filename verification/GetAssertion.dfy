/** Assertion selection (src/fido/cbor_get_assertion.c; sections 6.2 and 6.3 of CTAP 2.1): the eligible
    credentials are filtered in place, sorted newest first, and presented over several commands. */
module GetAssertion {
  import opened Bytes

  const MAX_CREDENTIAL_COUNT_IN_LIST: nat := 16
  const IDLE_MS: nat := 30_000

  const UV_OPTIONAL_WITH_LIST: nat := 2
  const UV_REQUIRED: nat := 3

  // `protect` is the credProtect value when the credential has extensions.
  datatype Cred = Cred(id: seq<byte>, created: nat, protect: Option<nat>)

  datatype Status = NoCredentials | OperationDenied | InvalidOption | Processing | NotAllowed

  datatype Reply = Assertion(cred: Option<Cred>, count: Option<nat>) | Failed(status: Status)

  // ---------------------------------------------------------------- loading

  // The resident credentials that load, in slot order; the array takes the first 16.
  function Loadable(slots: seq<Option<Cred>>): (creds: seq<Cred>)
    decreases |slots|
  {
    if slots == [] then []
    else
      var n := |slots| - 1;
      Loadable(slots[..n]) + if slots[n].Some? then [slots[n].value] else []
  }

  function Capped(creds: seq<Cred>): (c: seq<Cred>)
    ensures |c| <= MAX_CREDENTIAL_COUNT_IN_LIST && c <= creds
  {
    if |creds| <= MAX_CREDENTIAL_COUNT_IN_LIST then creds else creds[..MAX_CREDENTIAL_COUNT_IN_LIST]
  }

  lemma {:induction false} LoadableGrows(slots: seq<Option<Cred>>, i: nat)
    requires i <= |slots|
    ensures Loadable(slots[..i]) <= Loadable(slots)
    decreases |slots|
  {
    if i < |slots| {
      var n := |slots| - 1;
      LoadableGrows(slots[..n], i);
      assert slots[..n][..i] == slots[..i];
    } else {
      assert slots[..i] == slots;
    }
  }

  // Every slot that loads gives its credential, as often as it is there.
  lemma {:induction false} LoadableExact(slots: seq<Option<Cred>>, c: Cred)
    ensures multiset(Loadable(slots))[c] == multiset(slots)[Some(c)]
    decreases |slots|
  {
    if slots != [] {
      var n := |slots| - 1;
      LoadableExact(slots[..n], c);
      assert slots == slots[..n] + [slots[n]];
      assert multiset(slots)[Some(c)] == multiset(slots[..n])[Some(c)] + if slots[n] == Some(c) then 1 else 0;
    }
  }

  // The scan for an empty allow list.
  method LoadResident(slots: seq<Option<Cred>>, creds: array<Option<Cred>>) returns (n: nat)
    requires creds.Length == MAX_CREDENTIAL_COUNT_IN_LIST
    modifies creds
    ensures n == |Capped(Loadable(slots))|
    ensures Stored(creds[..], Capped(Loadable(slots)))
  {
    var i := 0;
    n := 0;
    while i < |slots| && n < MAX_CREDENTIAL_COUNT_IN_LIST
      invariant 0 <= i <= |slots| && n <= MAX_CREDENTIAL_COUNT_IN_LIST
      invariant n == |Loadable(slots[..i])| && Stored(creds[..], Loadable(slots[..i]))
    {
      assert slots[..i + 1][..i] == slots[..i];
      if slots[i].Some? {
        creds[n] := slots[i];
        n := n + 1;
      }
      i := i + 1;
    }
    LoadableGrows(slots, i);
    assert i == |slots| ==> slots[..i] == slots;
  }

  // The array starts with exactly these credentials.
  predicate Stored(a: seq<Option<Cred>>, creds: seq<Cred>) {
    |creds| <= |a| && forall i | 0 <= i < |creds| :: a[i] == Some(creds[i])
  }

  // ---------------------------------------------------------------- filtering

  predicate Allowed(c: Cred, uv: bool, listLen: nat) {
    uv || c.protect.None?
    || (c.protect.value != UV_REQUIRED && (c.protect.value != UV_OPTIONAL_WITH_LIST || listLen > 0))
  }

  function Eligible(creds: seq<Cred>, uv: bool, listLen: nat): (e: seq<Cred>)
    ensures |e| <= |creds|
    decreases |creds|
  {
    if creds == [] then []
    else
      var n := |creds| - 1;
      Eligible(creds[..n], uv, listLen) + if Allowed(creds[n], uv, listLen) then [creds[n]] else []
  }

  // Exactly these credentials stay, each as often as it was there: all of them for a verified user; otherwise
  // none with credProtect 3, and one with credProtect 2 only if there is an allow list.
  lemma {:induction false} EligibleExact(creds: seq<Cred>, uv: bool, listLen: nat, c: Cred)
    ensures multiset(Eligible(creds, uv, listLen))[c] ==
            if uv || (c.protect != Some(3) && (c.protect == Some(2) ==> listLen > 0)) then multiset(creds)[c] else 0
    decreases |creds|
  {
    if creds != [] {
      var n := |creds| - 1;
      EligibleExact(creds[..n], uv, listLen, c);
      assert creds == creds[..n] + [creds[n]];
    }
  }

  // The compaction loop: credentials that are not allowed are freed, the others move to the front.
  method Compact(creds: array<Option<Cred>>, len: nat, uv: bool, listLen: nat, ghost loaded: seq<Cred>)
    returns (n: nat)
    requires len == |loaded| <= creds.Length && Stored(creds[..], loaded)
    modifies creds
    ensures n == |Eligible(loaded, uv, listLen)| && Stored(creds[..], Eligible(loaded, uv, listLen))
  {
    n := 0;
    var i := 0;
    while i < len
      invariant 0 <= i <= len
      invariant n == |Eligible(loaded[..i], uv, listLen)| <= i
      invariant Stored(creds[..], Eligible(loaded[..i], uv, listLen))
      invariant forall k | i <= k < len :: creds[k] == Some(loaded[k])
    {
      assert loaded[..i + 1][..i] == loaded[..i];
      var c := creds[i].value;
      if c.protect.Some? {
        if c.protect.value == UV_REQUIRED && !uv {
          creds[i] := None;
        } else if c.protect.value == UV_OPTIONAL_WITH_LIST && listLen == 0 && !uv {
          creds[i] := None;
        } else {
          if n != i {
            creds[n] := creds[i];
          }
          n := n + 1;
        }
      } else {
        if n != i {
          creds[n] := creds[i];
        }
        n := n + 1;
      }
      i := i + 1;
    }
    assert loaded[..i] == loaded;
  }

  // ---------------------------------------------------------------- sorting

  // One round of the exchange sort: position i against j, j + 1, ...
  function Round(s: seq<Cred>, i: nat, j: nat): (r: seq<Cred>)
    requires i < j <= |s|
    ensures |r| == |s|
    decreases |s| - j
  {
    if j == |s| then s
    else Round(Exchanged(s, i, j), i, j + 1)
  }

  function SortFrom(s: seq<Cred>, i: nat): (r: seq<Cred>)
    requires i <= |s|
    ensures |r| == |s|
    decreases |s| - i
  {
    if i == |s| then s else SortFrom(Round(s, i, i + 1), i + 1)
  }

  function Sorted(s: seq<Cred>): (r: seq<Cred>)
    ensures |r| == |s|
  {
    SortFrom(s, 0)
  }

  predicate NewestFirst(s: seq<Cred>) {
    forall a, b | 0 <= a < b < |s| :: s[a].created >= s[b].created
  }

  // Everything before i is in place: newest first, and not older than anything from i on.
  predicate InPlace(s: seq<Cred>, i: nat)
    requires i <= |s|
  {
    forall a, b | 0 <= a < i && a < b < |s| :: s[a].created >= s[b].created
  }

  function Exchanged(s: seq<Cred>, i: nat, j: nat): (t: seq<Cred>)
    requires i < j < |s|
    ensures |t| == |s|
  {
    if s[j].created > s[i].created then s[i := s[j]][j := s[i]] else s
  }

  predicate NewestUpTo(s: seq<Cred>, i: nat, j: nat)
    requires i < j <= |s|
  {
    forall b | i < b < j :: s[i].created >= s[b].created
  }

  lemma ExchangeKeepsInPlace(s: seq<Cred>, i: nat, j: nat)
    requires i < j < |s| && InPlace(s, i)
    requires NewestUpTo(s, i, j)
    ensures var t := Exchanged(s, i, j);
            multiset(t) == multiset(s) && InPlace(t, i) && NewestUpTo(t, i, j + 1)
  {
  }

  lemma NewestIsInPlace(s: seq<Cred>, i: nat)
    requires i < |s| && InPlace(s, i) && NewestUpTo(s, i, |s|)
    ensures InPlace(s, i + 1)
  {
  }

  // A round permutes, leaves what is in place in place, and brings the newest of the rest to i.
  lemma {:induction false} RoundSelects(s: seq<Cred>, i: nat, j: nat)
    requires i < j <= |s| && InPlace(s, i)
    requires NewestUpTo(s, i, j)
    ensures multiset(Round(s, i, j)) == multiset(s)
    ensures InPlace(Round(s, i, j), i + 1)
    decreases |s| - j
  {
    hide Exchanged, InPlace, NewestUpTo;
    if j < |s| {
      ExchangeKeepsInPlace(s, i, j);
      RoundSelects(Exchanged(s, i, j), i, j + 1);
    } else {
      NewestIsInPlace(s, i);
    }
  }

  lemma {:induction false} SortFromSorts(s: seq<Cred>, i: nat)
    requires i <= |s| && InPlace(s, i)
    ensures multiset(SortFrom(s, i)) == multiset(s)
    ensures NewestFirst(SortFrom(s, i))
    decreases |s| - i
  {
    if i < |s| {
      RoundSelects(s, i, i + 1);
      SortFromSorts(Round(s, i, i + 1), i + 1);
    }
  }

  // The exchange sort is a permutation, newest first.
  lemma SortedIsPermutation(s: seq<Cred>)
    ensures multiset(Sorted(s)) == multiset(s) && NewestFirst(Sorted(s))
  {
    SortFromSorts(s, 0);
  }

  // The loops of the source, in the array.
  method Sort(creds: array<Option<Cred>>, n: nat, ghost was: seq<Cred>)
    requires n == |was| <= creds.Length && Stored(creds[..], was)
    modifies creds
    ensures Stored(creds[..], Sorted(was))
  {
    hide Round;
    var i := 0;
    ghost var s := was;
    while i < n
      invariant 0 <= i <= n == |s| && Stored(creds[..], s)
      invariant SortFrom(s, i) == Sorted(was)
    {
      SortRound(creds, n, i, s);
      s := Round(s, i, i + 1);
      i := i + 1;
    }
  }

  // The inner loop: position i against every later one.
  method SortRound(creds: array<Option<Cred>>, n: nat, i: nat, ghost was: seq<Cred>)
    requires i < n == |was| <= creds.Length && Stored(creds[..], was)
    modifies creds
    ensures Stored(creds[..], Round(was, i, i + 1))
  {
    var j := i + 1;
    ghost var s := was;
    while j < n
      invariant i < j <= n == |s| && Stored(creds[..], s)
      invariant Round(s, i, j) == Round(was, i, i + 1)
    {
      if creds[j].value.created > creds[i].value.created {
        var tmp := creds[j];
        creds[j] := creds[i];
        creds[i] := tmp;
        s := s[i := s[j]][j := s[i]];
      }
      j := j + 1;
    }
  }

  // ---------------------------------------------------------------- the command and the walk it leaves

  // A GetAssertion whose fields and PIN parameters have been checked. `loaded` are the credentials found
  // through the allow list or the resident scan; `verified` counts the allow-list entries that verify
  // without being loaded; `signs` says for which credentials the rest of the command succeeds.
  datatype Request = Request(
    loaded: seq<Cred>, residentInList: bool, listLen: nat, uv: bool, silent: bool, verified: nat,
    present: bool, noBlobKey: bool, signs: Cred -> bool, call: Call)

  predicate WellFormed(r: Request) {
    |r.loaded| <= MAX_CREDENTIAL_COUNT_IN_LIST && (r.residentInList ==> r.loaded != [])
  }

  predicate Resident(r: Request) {
    r.listLen == 0 || r.residentInList
  }

  // The walk across commands: the saved credentials, the next one to present, how many there are.
  datatype Walk = Walk(creds: seq<Cred>, counter: nat, number: nat, timer: nat, channel: nat)

  const NO_WALK: Walk := Walk([], 0, 0, 0, 0)

  // How many credentials the command works with: the eligible ones, or those only verified silently.
  function Number(r: Request): nat {
    var n := |Eligible(r.loaded, r.uv, r.listLen)|;
    if n == 0 && r.silent && r.loaded == [] && r.listLen > 0 then r.verified else n
  }

  // cbor_get_assertion with next == false: any error resets the saved walk. Every other command than
  // GetNextAssertion starts without one.
  function Begin(r: Request): (Walk, Reply)
    requires WellFormed(r)
  {
    var n := Number(r);
    var list := Sorted(Eligible(r.loaded, r.uv, r.listLen));
    if !r.present then (NO_WALK, Failed(OperationDenied))
    else if n == 0 then (NO_WALK, Failed(NoCredentials))
    else if r.noBlobKey then (NO_WALK, Failed(InvalidOption))
    else if list == [] then (NO_WALK, Assertion(None, if n > 1 then Some(n) else None))
    else
      var number := if Resident(r) && r.listLen > 1 then 1 else n;
      var walk := if number > 1 then Walk(list, 1, number, r.call.now, r.call.channel) else NO_WALK;
      if !r.signs(list[0]) then (NO_WALK, Failed(Processing))
      else (walk, Assertion(Some(list[0]), if number > 1 then Some(number) else None))
  }

  // cbor_get_next_assertion: any error, and presenting the last credential, ends the walk.
  function Next(w: Walk, signs: Cred -> bool, call: Call): (Walk, Reply) {
    if w.channel != call.channel || w.counter >= w.number || w.counter >= |w.creds|
       || (call.now - w.timer) % 0x1_0000_0000 >= IDLE_MS then (NO_WALK, Failed(NotAllowed))
    else if !signs(w.creds[w.counter]) then (NO_WALK, Failed(Processing))
    else
      (if w.counter + 1 == w.number then NO_WALK else w.(timer := call.now, counter := w.counter + 1),
       Assertion(Some(w.creds[w.counter]), None))
  }

  // The replies to the GetNextAssertion commands that follow.
  function Replies(w: Walk, signs: Cred -> bool, calls: seq<Call>): seq<Reply>
    decreases |calls|
  {
    if calls == [] then []
    else
      var (after, reply) := Next(w, signs, calls[0]);
      [reply] + Replies(after, signs, calls[1..])
  }

  // The rest of a list handed out one credential for each timely request of its owner; the first request
  // that is late, comes in on another channel or cannot be served ends it for good.
  function HandOut(rest: seq<Cred>, last: nat, owner: nat, signs: Cred -> bool, calls: seq<Call>): seq<Reply>
    decreases |calls|
  {
    if calls == [] then []
    else
      var call := calls[0];
      if rest == [] || call.channel != owner || (call.now - last) % 0x1_0000_0000 >= IDLE_MS then
        [Failed(NotAllowed)] + HandOut([], last, owner, signs, calls[1..])
      else if !signs(rest[0]) then
        [Failed(Processing)] + HandOut([], last, owner, signs, calls[1..])
      else
        [Assertion(Some(rest[0]), None)] + HandOut(rest[1..], call.now, owner, signs, calls[1..])
  }

  lemma {:induction false} NoWalkRefuses(last: nat, owner: nat, signs: Cred -> bool, calls: seq<Call>)
    ensures Replies(NO_WALK, signs, calls) == HandOut([], last, owner, signs, calls)
    decreases |calls|
  {
    if calls != [] {
      NoWalkRefuses(last, owner, signs, calls[1..]);
    }
  }

  lemma {:induction false} WalkHandsOut(w: Walk, signs: Cred -> bool, calls: seq<Call>)
    requires w.counter < w.number == |w.creds|
    ensures Replies(w, signs, calls) == HandOut(w.creds[w.counter..], w.timer, w.channel, signs, calls)
    decreases |calls|
  {
    if calls != [] {
      var (after, reply) := Next(w, signs, calls[0]);
      if after == NO_WALK {
        assert reply.Assertion? ==> w.creds[w.counter..][1..] == [];
        NoWalkRefuses(if reply.Assertion? then calls[0].now else w.timer, w.channel, signs, calls[1..]);
      } else {
        assert w.creds[w.counter..][1..] == after.creds[after.counter..];
        WalkHandsOut(after, signs, calls[1..]);
      }
    }
  }

  lemma {:induction false} NoWalkStays(signs: Cred -> bool, calls: seq<Call>)
    ensures |Replies(NO_WALK, signs, calls)| == |calls|
    ensures forall reply <- Replies(NO_WALK, signs, calls) :: reply == Failed(NotAllowed)
    decreases |calls|
  {
    if calls != [] {
      NoWalkStays(signs, calls[1..]);
    }
  }

  // After a GetAssertion that failed, wherever it failed, every GetNextAssertion is refused.
  lemma FailedBeginRefuses(r: Request, signs: Cred -> bool, calls: seq<Call>)
    requires WellFormed(r) && Begin(r).1.Failed?
    ensures Begin(r).0 == NO_WALK && |Replies(Begin(r).0, signs, calls)| == |calls|
    ensures forall reply <- Replies(Begin(r).0, signs, calls) :: reply == Failed(NotAllowed)
  {
    NoWalkStays(signs, calls);
  }

  // The newest eligible credential.
  function Newest(r: Request): Option<Cred> {
    var list := Sorted(Eligible(r.loaded, r.uv, r.listLen));
    if list == [] then None else Some(list[0])
  }

  lemma NewestIff(r: Request)
    ensures Newest(r).Some? <==> exists c <- r.loaded :: Allowed(c, r.uv, r.listLen)
    ensures Newest(r).Some? ==>
              && Newest(r).value in r.loaded && Allowed(Newest(r).value, r.uv, r.listLen)
              && forall c <- r.loaded | Allowed(c, r.uv, r.listLen) :: c.created <= Newest(r).value.created
  {
    var eligible := Eligible(r.loaded, r.uv, r.listLen);
    var list := Sorted(eligible);
    SortedIsPermutation(eligible);
    forall c: Cred
      ensures c in list <==> c in r.loaded && Allowed(c, r.uv, r.listLen)
    {
      EligibleExact(r.loaded, r.uv, r.listLen, c);
      assert c in list <==> c in multiset(list);
      assert c in r.loaded <==> c in multiset(r.loaded);
    }
    assert list != [] ==> list[0] in list;
    forall c <- r.loaded | Allowed(c, r.uv, r.listLen)
      ensures list != [] && c.created <= list[0].created
    {
      assert c in list;
    }
  }

  // Nothing was loaded through the allow list, but a silent request only asks whether something would verify.
  predicate OnlyVerified(r: Request) {
    r.silent && r.loaded == [] && r.listLen > 0 && r.verified > 0
  }

  // How GetAssertion ends, in terms of the request: with a credential exactly when the user is present, the
  // request does not turn the large-blob key off, there is an eligible credential and the newest one signs.
  lemma BeginIff(r: Request)
    requires WellFormed(r)
    ensures var reply := Begin(r).1;
            var newest := Newest(r);
            && (reply.Assertion? && reply.cred.Some? <==>
                  r.present && !r.noBlobKey && newest.Some? && r.signs(newest.value))
            && (reply.Assertion? && reply.cred.None? <==> r.present && !r.noBlobKey && OnlyVerified(r))
            && (reply.Assertion? && reply.cred.None? ==>
                  reply.count == if r.verified > 1 then Some(r.verified) else None)
            && (reply == Failed(OperationDenied) <==> !r.present)
            && (reply == Failed(NoCredentials) <==> r.present && newest.None? && !OnlyVerified(r))
            && (reply == Failed(InvalidOption) <==> r.present && r.noBlobKey && (newest.Some? || OnlyVerified(r)))
            && (reply == Failed(Processing) <==>
                  r.present && !r.noBlobKey && newest.Some? && !r.signs(newest.value))
  {
    hide Sorted;
  }

  // GetAssertion and the GetNextAssertions after it present the eligible credentials, newest first: the
  // answer gives the first and the true number, the walk hands out the rest.
  lemma AssertionWalk(r: Request, calls: seq<Call>)
    requires WellFormed(r) && r.present && !r.noBlobKey && Newest(r).Some? && r.signs(Newest(r).value)
    ensures var eligible := Eligible(r.loaded, r.uv, r.listLen);
            var list := Sorted(eligible);
            var (walk, reply) := Begin(r);
            var single := r.residentInList && r.listLen > 1;
            && multiset(list) == multiset(eligible) && NewestFirst(list) && list != []
            && reply == Assertion(Some(list[0]), if |list| > 1 && !single then Some(|list|) else None)
            && Replies(walk, r.signs, calls) ==
                 HandOut(if single then [] else list[1..], r.call.now, r.call.channel, r.signs, calls)
  {
    hide Sorted, Eligible, NewestFirst;
    var eligible := Eligible(r.loaded, r.uv, r.listLen);
    var list := Sorted(eligible);
    SortedIsPermutation(eligible);
    var (walk, _) := Begin(r);
    if walk == NO_WALK {
      NoWalkRefuses(r.call.now, r.call.channel, r.signs, calls);
    } else {
      WalkHandsOut(walk, r.signs, calls);
    }
  }

  lemma {:induction false} RepliesAreSaved(w: Walk, signs: Cred -> bool, calls: seq<Call>)
    ensures forall reply <- Replies(w, signs, calls) ::
              reply.Assertion? && reply.cred.Some? ==> reply.cred.value in w.creds
    decreases |calls|
  {
    if calls != [] {
      RepliesAreSaved(Next(w, signs, calls[0]).0, signs, calls[1..]);
    }
  }

  // For a user who is not verified, neither the answer nor any later one carries a credential with
  // credProtect 3, nor, without an allow list, one with credProtect 2.
  lemma ProtectedStayHidden(r: Request, signs: Cred -> bool, calls: seq<Call>)
    requires WellFormed(r) && !r.uv
    ensures forall reply <- [Begin(r).1] + Replies(Begin(r).0, signs, calls) ::
              reply.Assertion? && reply.cred.Some? ==>
                reply.cred.value.protect != Some(3) && (r.listLen == 0 ==> reply.cred.value.protect != Some(2))
  {
    hide Sorted, Eligible, Replies;
    RepliesAreSaved(Begin(r).0, signs, calls);
    var eligible := Eligible(r.loaded, r.uv, r.listLen);
    SortedIsPermutation(eligible);
    forall c <- Sorted(eligible)
      ensures c.protect != Some(3) && (r.listLen == 0 ==> c.protect != Some(2))
    {
      assert c in multiset(Sorted(eligible));
      EligibleExact(r.loaded, r.uv, r.listLen, c);
    }
  }

  // Calls that come from the owner, each within the idle time of the one before.
  predicate Timely(last: nat, owner: nat, calls: seq<Call>)
    decreases |calls|
  {
    calls == [] ||
    (calls[0].channel == owner && (calls[0].now - last) % 0x1_0000_0000 < 30_000
     && Timely(calls[0].now, owner, calls[1..]))
  }

  function Presented(rest: seq<Cred>): seq<Reply>
    decreases |rest|
  {
    if rest == [] then [] else [Assertion(Some(rest[0]), None)] + Presented(rest[1..])
  }

  lemma {:induction false} HandOutAll(rest: seq<Cred>, last: nat, owner: nat, signs: Cred -> bool, calls: seq<Call>)
    requires Timely(last, owner, calls) && |calls| == |rest| && forall c <- rest :: signs(c)
    ensures HandOut(rest, last, owner, signs, calls) == Presented(rest)
    decreases |calls|
  {
    if rest != [] {
      assert rest[0] in rest;
      HandOutAll(rest[1..], calls[0].now, owner, signs, calls[1..]);
    }
  }

  // A request that comes 30 seconds after the last answer, or on another channel, gets nothing, and so do all
  // requests after it.
  lemma StrayRequestEndsWalk(w: Walk, signs: Cred -> bool, calls: seq<Call>)
    requires calls != []
    requires calls[0].channel != w.channel || w.timer + 30_000 <= calls[0].now < w.timer + 0x1_0000_0000
    ensures |Replies(w, signs, calls)| == |calls|
    ensures forall reply <- Replies(w, signs, calls) :: reply == Failed(NotAllowed)
  {
    NoWalkStays(signs, calls[1..]);
  }

  // n - 1 timely requests present each of the other eligible credentials exactly once, newest first.
  lemma EveryCredentialIsPresented(r: Request, calls: seq<Call>)
    requires WellFormed(r) && r.present && !r.noBlobKey && !(r.residentInList && r.listLen > 1)
    requires forall c <- r.loaded :: r.signs(c)
    requires Timely(r.call.now, r.call.channel, calls)
    requires |calls| == |Eligible(r.loaded, r.uv, r.listLen)| - 1
    ensures Replies(Begin(r).0, r.signs, calls) == Presented(Sorted(Eligible(r.loaded, r.uv, r.listLen))[1..])
  {
    NewestIff(r);
    AssertionWalk(r, calls);
    var eligible := Eligible(r.loaded, r.uv, r.listLen);
    var rest := Sorted(eligible)[1..];
    forall c | c in rest
      ensures r.signs(c)
    {
      assert c in Sorted(eligible) && c in multiset(Sorted(eligible));
      EligibleExact(r.loaded, r.uv, r.listLen, c);
      assert c in multiset(r.loaded);
    }
    HandOutAll(rest, r.call.now, r.call.channel, r.signs, calls);
  }

  // ---------------------------------------------------------------- the handler and its globals

  class AssertionHandler {
    const credsx: array<Option<Cred>>
    var credentialCounter: nat
    var numberOfCredentialsx: nat
    var timerx: nat
    var channelx: nat

    // The globals hold the walk w.
    ghost predicate Holds(w: Walk)
      reads this, credsx
    {
      && credsx.Length == MAX_CREDENTIAL_COUNT_IN_LIST && Stored(credsx[..], w.creds)
      && credentialCounter == w.counter && numberOfCredentialsx == w.number == |w.creds|
      && timerx == w.timer && channelx == w.channel
    }

    constructor ()
      ensures Holds(NO_WALK) && fresh(credsx)
    {
      credsx := new Option<Cred>[MAX_CREDENTIAL_COUNT_IN_LIST](_ => None);
      credentialCounter, numberOfCredentialsx, timerx, channelx := 0, 0, 0, 0;
    }

    method Reset()
      requires credsx.Length == MAX_CREDENTIAL_COUNT_IN_LIST
      modifies this, credsx
      ensures Holds(NO_WALK)
    {
      var i := 0;
      while i < MAX_CREDENTIAL_COUNT_IN_LIST
      {
        credsx[i] := None;
        i := i + 1;
      }
      credentialCounter, numberOfCredentialsx, timerx, channelx := 0, 0, 0, 0;
    }

    method HandleNext(signs: Cred -> bool, call: Call, ghost w: Walk) returns (reply: Reply)
      requires Holds(w)
      modifies this, credsx
      ensures reply == Next(w, signs, call).1 && Holds(Next(w, signs, call).0)
    {
      if channelx != call.channel || credentialCounter >= numberOfCredentialsx
         || (call.now - timerx) % 0x1_0000_0000 >= IDLE_MS {
        Reset();
        return Failed(NotAllowed);
      }
      var cred := credsx[credentialCounter].value;
      if !signs(cred) {
        Reset();
        return Failed(Processing);
      }
      timerx := call.now;
      credentialCounter := credentialCounter + 1;
      if credentialCounter == numberOfCredentialsx {
        Reset();
      }
      reply := Assertion(Some(cred), None);
    }

    // GetAssertion; the loaded credentials stand in `creds`.
    method Handle(r: Request, creds: array<Option<Cred>>) returns (reply: Reply)
      requires WellFormed(r) && Holds(NO_WALK)
      requires creds != credsx && creds.Length == MAX_CREDENTIAL_COUNT_IN_LIST && Stored(creds[..], r.loaded)
      modifies this, credsx, creds
      ensures reply == Begin(r).1 && Holds(Begin(r).0)
    {
      var silent := r.silent && |r.loaded| == 0;
      var n := Compact(creds, |r.loaded|, r.uv, r.listLen, r.loaded);
      ghost var eligible := Eligible(r.loaded, r.uv, r.listLen);
      var number := n;
      if n == 0 && silent && r.listLen > 0 {
        number := r.verified;
      }
      if !r.present {
        return Failed(OperationDenied);
      }
      if number == 0 {
        return Failed(NoCredentials);
      }
      if r.noBlobKey {
        return Failed(InvalidOption);
      }
      if silent && !(r.listLen == 0 || r.residentInList) {
        return Assertion(None, if number > 1 then Some(number) else None);
      }
      Sort(creds, n, eligible);
      if (r.listLen == 0 || r.residentInList) && r.listLen > 1 {
        number := 1;
      }
      if number > 1 {
        Save(creds, number, r.call, Sorted(eligible));
      }
      var cred := creds[0].value;
      if !r.signs(cred) {
        Reset();
        return Failed(Processing);
      }
      reply := Assertion(Some(cred), if number > 1 then Some(number) else None);
    }

    method Save(creds: array<Option<Cred>>, number: nat, call: Call, ghost list: seq<Cred>)
      requires credsx.Length == MAX_CREDENTIAL_COUNT_IN_LIST == creds.Length && creds != credsx
      requires number == |list| && Stored(creds[..], list)
      modifies this, credsx
      ensures Holds(Walk(list, 1, number, call.now, call.channel))
    {
      var i := 0;
      while i < number
        invariant 0 <= i <= number && Stored(creds[..], list)
        invariant forall k | 0 <= k < i :: credsx[k] == Some(list[k])
      {
        credsx[i] := creds[i];
        i := i + 1;
      }
      numberOfCredentialsx := number;
      timerx := call.now;
      channelx := call.channel;
      credentialCounter := 1;
    }
  }
}
