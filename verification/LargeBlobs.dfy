/** authenticatorLargeBlobs (src/fido/cbor_large_blobs.c; section 6.10 of CTAP 2.1): the large-blob
    array is uploaded in fragments, checked and stored, and read back in pages. */
module LargeBlobs {
  import opened Bytes

  const MAX_FRAGMENT_LENGTH: nat := 960
  const MAX_LARGE_BLOB_SIZE: nat := 2048
  const IDLE_MS: nat := 30_000

  datatype Status =
    | Success | InvalidParameter | InvalidLen | StorageFull | InvalidSeq
    | PuatRequired | MissingParameter | PinAuthInvalid | IntegrityFailure

  // The parsed fields; an absent length is 0 to the code.
  datatype Request = Request(
    get: Option<nat>, fragment: Option<seq<byte>>, offset: Option<nat>, length: Option<nat>,
    param: Option<seq<byte>>, protocol: Option<nat>)

  // What a command finds around it: the clock, whether a PIN or always-UV is set, the check of
  // pinUvAuthParam under the current token, its large-blob permission, and whether the file write works.
  datatype Env = Env(
    now: nat, required: bool, verify: (nat, seq<byte>, seq<byte>) -> bool, lbw: bool, writes: bool)

  datatype State = State(
    expectedLength: nat, expectedNextOffset: nat, timer: nat, active: bool, temp: seq<byte>, blob: seq<byte>)

  predicate Intact(hash: seq<byte> -> seq<byte>, blob: seq<byte>) {
    |blob| >= 17 && var h := hash(blob[..|blob| - 16]); |h| == 32 && h[..16] == blob[|blob| - 16..]
  }

  // ---------------------------------------------------------------- one command

  function Ones(n: nat): seq<byte> {
    seq(n, _ => 0xff)
  }

  function SignedData(hash: seq<byte> -> seq<byte>, offset: nat, fragment: seq<byte>): seq<byte> {
    Ones(32) + [0x0C, 0x00] + Le32(offset % 0x1_0000_0000) + hash(fragment)
  }

  function Authorize(hash: seq<byte> -> seq<byte>, r: Request, offset: nat, fragment: seq<byte>, env: Env): Status {
    if !env.required && r.param.None? && r.protocol.None? then Success
    else if r.param.None? then PuatRequired
    else if r.protocol.None? then MissingParameter
    else if |r.param.value| != (if r.protocol.value == 1 then 16 else 32) then PinAuthInvalid
    else if !env.verify(r.protocol.value, SignedData(hash, offset, fragment), r.param.value) then PinAuthInvalid
    else if !env.lbw then PinAuthInvalid
    else Success
  }

  // The checks on the parsed fields that come before anything else.
  function Shape(r: Request): Status {
    if r.protocol.Some? && r.protocol.value != 1 && r.protocol.value != 2 then InvalidParameter
    else if r.offset.None? then InvalidParameter
    else if r.get.None? && r.fragment.None? then InvalidParameter
    else if r.get.Some? && r.fragment.Some? then InvalidParameter
    else Success
  }

  function StartStatus(length: nat): Status {
    if length == 0 then InvalidParameter
    else if length > MAX_LARGE_BLOB_SIZE then StorageFull
    else if length < 17 then InvalidParameter
    else Success
  }

  // A fragment at offset 0 declares the length and starts over, before it is authorized.
  function Begin(s: State, offset: nat, length: nat, now: nat): (State, Status) {
    if offset != 0 then (s, if length != 0 then InvalidParameter else Success)
    else
      var status := StartStatus(length);
      if status != Success then (s, status)
      else (s.(expectedLength := length, expectedNextOffset := 0, timer := now, active := true), Success)
  }

  // Copy the fragment behind what is staged.
  function Stage(hash: seq<byte> -> seq<byte>, s: State, offset: nat, fragment: seq<byte>, env: Env): (State, Status)
    requires |s.temp| == MAX_LARGE_BLOB_SIZE
    requires s.expectedNextOffset + |fragment| <= s.expectedLength <= MAX_LARGE_BLOB_SIZE
  {
    var base := if offset == 0 then Zeros(MAX_LARGE_BLOB_SIZE) else s.temp;
    var temp := Splice(base, s.expectedNextOffset, fragment);
    Commit(hash, s.(temp := temp, expectedNextOffset := s.expectedNextOffset + |fragment|, timer := env.now), env)
  }

  // A complete array is checked and stored.
  function Commit(hash: seq<byte> -> seq<byte>, s: State, env: Env): (State, Status)
    requires |s.temp| == MAX_LARGE_BLOB_SIZE && s.expectedLength <= MAX_LARGE_BLOB_SIZE
  {
    var data := s.temp[..s.expectedLength];
    if s.expectedNextOffset != s.expectedLength then (s, Success)
    else if !Intact(hash, data) then (s, IntegrityFailure)
    else
      (s.(blob := if env.writes then data else s.blob, expectedLength := 0, expectedNextOffset := 0, active := false),
       Success)
  }

  function Write(hash: seq<byte> -> seq<byte>, s: State, r: Request, env: Env): (State, Status)
    requires |s.temp| == MAX_LARGE_BLOB_SIZE && s.expectedLength <= MAX_LARGE_BLOB_SIZE
    requires r.fragment.Some? && r.offset.Some?
  {
    var fragment, offset := r.fragment.value, r.offset.value;
    if |fragment| > MAX_FRAGMENT_LENGTH then (s, InvalidLen)
    else
      var (begun, status) := Begin(s, offset, if r.length.Some? then r.length.value else 0, env.now);
      if status != Success then (begun, status)
      else if offset != begun.expectedNextOffset then (begun, InvalidSeq)
      else
        var auth := Authorize(hash, r, offset, fragment, env);
        if auth != Success then (begun, auth)
        else if offset + |fragment| > begun.expectedLength then (begun, InvalidParameter)
        else Stage(hash, begun, offset, fragment, env)
  }

  // A page of the stored array.
  function Read(blob: seq<byte>, r: Request): (page: (seq<byte>, Status))
    requires r.get.Some? && r.offset.Some?
  {
    var get, offset := r.get.value, r.offset.value;
    if r.length.Some? || r.param.Some? || r.protocol.Some? then ([], InvalidParameter)
    else if get > MAX_FRAGMENT_LENGTH then ([], InvalidLen)
    else if offset > |blob| then ([], InvalidParameter)
    else (blob[offset..offset + if get < |blob| - offset then get else |blob| - offset], Success)
  }

  // cbor_large_blobs: the new state, the page that is returned, the status.
  function Command(hash: seq<byte> -> seq<byte>, s: State, r: Request, env: Env): (State, seq<byte>, Status)
    requires |s.temp| == MAX_LARGE_BLOB_SIZE && s.expectedLength <= MAX_LARGE_BLOB_SIZE
  {
    var status := Shape(r);
    if status != Success then (s, [], status)
    else if r.get.Some? then
      var (page, read) := Read(s.blob, r);
      (s, page, read)
    else
      var (after, written) := Write(hash, s, r, env);
      (after, [], written)
  }

  // cbor_large_blobs_tick; the clock is a 32-bit counter.
  predicate Idle(s: State, now: nat) {
    s.active && (now - s.timer) % 0x1_0000_0000 >= IDLE_MS
  }

  function Tick(s: State, now: nat): State {
    if Idle(s, now) then s.(expectedLength := 0, expectedNextOffset := 0, active := false) else s
  }

  // ---------------------------------------------------------------- runs

  datatype Event = Do(request: Request, env: Env) | TickAt(now: nat)

  // Beside the machine, what a client knows: the length it declared and the fragments taken since.
  datatype View = View(s: State, declared: nat, taken: seq<seq<byte>>)

  // The request is a start that is not refused for its declared length.
  predicate Starts(r: Request) {
    && Shape(r) == Success && r.fragment.Some? && |r.fragment.value| <= MAX_FRAGMENT_LENGTH && r.offset == Some(0)
    && StartStatus(if r.length.Some? then r.length.value else 0) == Success
  }

  // A start empties the client's list.
  function Opened(v: View, r: Request): View {
    if Starts(r) then View(v.s, r.length.value, []) else v
  }

  // From the answers alone: a fragment answered with success or an integrity failure was taken,
  // and after the successful last one nothing is pending.
  function Learn(v: View, r: Request, status: Status, after: State): View {
    var begun := Opened(v, r);
    if r.fragment.None? || status !in {Success, IntegrityFailure} then begun.(s := after)
    else
      var taken := begun.taken + [r.fragment.value];
      if status == Success && |Concat(taken)| == begun.declared then View(after, 0, [])
      else View(after, begun.declared, taken)
  }

  function Step(hash: seq<byte> -> seq<byte>, v: View, e: Event): View
    requires |v.s.temp| == MAX_LARGE_BLOB_SIZE && v.s.expectedLength <= MAX_LARGE_BLOB_SIZE
  {
    match e
    case Do(r, env) =>
      var (after, _, status) := Command(hash, v.s, r, env);
      Learn(v, r, status, after)
    case TickAt(now) =>
      if Idle(v.s, now) then View(Tick(v.s, now), 0, []) else v
  }

  // What is staged is what the client sent: the fragments taken, in order, within the declared length.
  predicate Consistent(v: View) {
    && |v.s.temp| == MAX_LARGE_BLOB_SIZE
    && v.s.expectedLength == v.declared <= MAX_LARGE_BLOB_SIZE
    && v.s.expectedNextOffset == |Concat(v.taken)| <= v.declared
    && v.s.temp[..v.s.expectedNextOffset] == Concat(v.taken)
    && (if v.s.active then v.declared >= 17 else v.declared == 0)
  }

  lemma StageKeepsConsistent(hash: seq<byte> -> seq<byte>, v: View, offset: nat, fragment: seq<byte>, env: Env)
    requires Consistent(v) && v.s.active && offset == v.s.expectedNextOffset
    requires offset + |fragment| <= v.declared
    ensures var (after, status) := Stage(hash, v.s, offset, fragment, env);
            var taken := v.taken + [fragment];
            && status in {Success, IntegrityFailure}
            && Concat(taken) == Concat(v.taken) + fragment
            && (if |Concat(taken)| < v.declared then status == Success
                else status == if Intact(hash, Concat(taken)) then Success else IntegrityFailure)
            && (if status == Success && |Concat(taken)| == v.declared
                then Consistent(View(after, 0, []))
                  && after.blob == if env.writes then Concat(taken) else v.s.blob
                else Consistent(View(after, v.declared, taken)) && after.blob == v.s.blob)
  {
  }

  // The state a fragment meets: a start has already reset it.
  function Begun(v: View, r: Request, now: nat): View
    requires r.offset.Some?
  {
    var length := if r.length.Some? then r.length.value else 0;
    Opened(v, r).(s := Begin(v.s, r.offset.value, length, now).0)
  }

  lemma BegunConsistent(v: View, r: Request, now: nat)
    requires Consistent(v) && Shape(r) == Success && r.fragment.Some? && |r.fragment.value| <= MAX_FRAGMENT_LENGTH
    ensures Consistent(Begun(v, r, now)) && Begun(v, r, now).s.blob == v.s.blob
    ensures r.offset.value == 0 && StartStatus(if r.length.Some? then r.length.value else 0) == Success ==>
              Begun(v, r, now).s.active
  {
  }

  // A write either is refused, changing nothing but what a start resets, or stages the fragment.
  predicate Staged(v: View, r: Request, env: Env, status: Status)
    requires r.offset.Some? && r.fragment.Some?
  {
    var begun := Begun(v, r, env.now);
    begun.s.active && r.offset.value == begun.s.expectedNextOffset
    && r.offset.value + |r.fragment.value| <= begun.declared && status in {Success, IntegrityFailure}
  }

  lemma WriteCases(hash: seq<byte> -> seq<byte>, v: View, r: Request, env: Env)
    requires Consistent(v) && Shape(r) == Success && r.fragment.Some?
    ensures var (after, status) := Write(hash, v.s, r, env);
            if status in {Success, IntegrityFailure} then
              && |r.fragment.value| <= MAX_FRAGMENT_LENGTH
              && Staged(v, r, env, status)
              && Consistent(Begun(v, r, env.now))
              && (after, status) == Stage(hash, Begun(v, r, env.now).s, r.offset.value, r.fragment.value, env)
            else after == v.s || (|r.fragment.value| <= MAX_FRAGMENT_LENGTH && after == Begun(v, r, env.now).s)
  {
  }

  lemma WriteKeepsConsistent(hash: seq<byte> -> seq<byte>, v: View, r: Request, env: Env)
    requires Consistent(v) && Shape(r) == Success && r.fragment.Some?
    ensures var (after, status) := Write(hash, v.s, r, env);
            Consistent(Learn(v, r, status, after))
  {
    WriteCases(hash, v, r, env);
    var (after, status) := Write(hash, v.s, r, env);
    var begun := Begun(v, r, env.now);
    if status in {Success, IntegrityFailure} {
      StageKeepsConsistent(hash, begun, r.offset.value, r.fragment.value, env);
    } else if |r.fragment.value| <= MAX_FRAGMENT_LENGTH {
      BegunConsistent(v, r, env.now);
    }
  }

  lemma StepKeepsConsistent(hash: seq<byte> -> seq<byte>, v: View, e: Event)
    requires Consistent(v)
    ensures Consistent(Step(hash, v, e))
  {
    if e.Do? && Shape(e.request) == Success && e.request.fragment.Some? {
      WriteKeepsConsistent(hash, v, e.request, e.env);
    }
  }

  // The array b is what the client sent, fragment after fragment, ending with r; it has the declared
  // length and carries its own truncated hash.
  predicate Completes(hash: seq<byte> -> seq<byte>, v: View, r: Request, b: seq<byte>) {
    && r.fragment.Some?
    && b == Concat(Opened(v, r).taken + [r.fragment.value])
    && |b| == Opened(v, r).declared
    && Intact(hash, b)
  }

  lemma StepStoresOnlyUploads(hash: seq<byte> -> seq<byte>, v: View, e: Event)
    requires Consistent(v)
    ensures var b := Step(hash, v, e).s.blob;
            b == v.s.blob || (e.Do? && Completes(hash, v, e.request, b))
  {
    if e.Do? && Shape(e.request) == Success && e.request.fragment.Some? {
      var r, env := e.request, e.env;
      WriteCases(hash, v, r, env);
      var (after, status) := Write(hash, v.s, r, env);
      if status in {Success, IntegrityFailure} {
        StageKeepsConsistent(hash, Begun(v, r, env.now), r.offset.value, r.fragment.value, env);
      }
    }
  }

  function Run(hash: seq<byte> -> seq<byte>, v: View, events: seq<Event>): (after: View)
    requires Consistent(v)
    ensures Consistent(after)
    decreases |events|
  {
    if events == [] then v
    else
      var before := Run(hash, v, events[..|events| - 1]);
      StepKeepsConsistent(hash, before, events[|events| - 1]);
      Step(hash, before, events[|events| - 1])
  }

  // Event k of the run completes the upload of b.
  predicate UploadedAt(hash: seq<byte> -> seq<byte>, v: View, events: seq<Event>, k: nat, b: seq<byte>)
    requires Consistent(v)
  {
    k < |events| && events[k].Do? && Completes(hash, Run(hash, v, events[..k]), events[k].request, b)
  }

  // In every run, with restarts, refused fragments and timeouts, the stored array is the old one or one
  // complete upload.
  lemma {:induction false} StoredIsAnUpload(hash: seq<byte> -> seq<byte>, v: View, events: seq<Event>)
    requires Consistent(v)
    ensures var b := Run(hash, v, events).s.blob;
            b == v.s.blob || exists k: nat :: UploadedAt(hash, v, events, k, b)
    decreases |events|
  {
    hide Consistent, Completes, Step;
    if events != [] {
      var n := |events| - 1;
      var b := Run(hash, v, events).s.blob;
      StoredIsAnUpload(hash, v, events[..n]);
      StepStoresOnlyUploads(hash, Run(hash, v, events[..n]), events[n]);
      if b != v.s.blob {
        if b == Run(hash, v, events[..n]).s.blob {
          var k: nat :| UploadedAt(hash, v, events[..n], k, b);
          assert events[..n][..k] == events[..k];
          assert UploadedAt(hash, v, events, k, b);
        } else {
          assert UploadedAt(hash, v, events, n, b);
        }
      }
    }
  }

  // ---------------------------------------------------------------- a whole upload

  function Fragments(events: seq<Event>): (parts: seq<seq<byte>>)
    requires forall e <- events :: e.Do? && e.request.fragment.Some?
    ensures |parts| == |events|
  {
    seq(|events|, i requires 0 <= i < |events| => events[i].request.fragment.value)
  }

  // Event e sends a fragment, perhaps an empty one, at `offset`, authorized, in the form the command wants.
  predicate Sends(hash: seq<byte> -> seq<byte>, e: Event, offset: nat, total: nat) {
    && e.Do? && Shape(e.request) == Success && e.request.fragment.Some?
    && |e.request.fragment.value| <= MAX_FRAGMENT_LENGTH
    && e.request.offset == Some(offset)
    && e.request.length == (if offset == 0 then Some(total) else None)
    && Authorize(hash, e.request, offset, e.request.fragment.value, e.env) == Success
  }

  // The events send an array of length `total` in order, and the first and the last send some of it.
  ghost predicate Uploads(hash: seq<byte> -> seq<byte>, events: seq<Event>, total: nat) {
    && (forall e <- events :: e.Do? && e.request.fragment.Some?)
    && (forall k | 0 <= k < |events| :: Sends(hash, events[k], |Concat(Fragments(events[..k]))|, total))
    && |Concat(Fragments(events))| == total
    && (events != [] ==> events[0].request.fragment != Some([]) && events[|events| - 1].request.fragment != Some([]))
  }

  function StatusOf(hash: seq<byte> -> seq<byte>, v: View, e: Event): Status
    requires Consistent(v) && e.Do?
  {
    Command(hash, v.s, e.request, e.env).2
  }

  lemma {:induction false} ConcatGrows(parts: seq<seq<byte>>, i: nat, j: nat)
    requires i <= j <= |parts|
    ensures |Concat(parts[..i])| <= |Concat(parts[..j])|
    decreases j
  {
    if i < j {
      ConcatGrows(parts, i, j - 1);
      assert parts[..j] == parts[..j - 1] + [parts[j - 1]];
      ConcatAppend(parts[..j - 1], parts[j - 1]);
    }
  }

  lemma PrefixIsShorter(parts: seq<seq<byte>>, k: nat)
    requires k < |parts| && parts[|parts| - 1] != []
    ensures |Concat(parts[..k])| < |Concat(parts)|
  {
    hide Concat;
    var n := |parts| - 1;
    assert parts[..n] + [parts[n]] == parts;
    ConcatAppend(parts[..n], parts[n]);
    ConcatGrows(parts, k, n);
  }

  lemma PrefixIsNotEmpty(parts: seq<seq<byte>>, k: nat)
    requires 0 < k <= |parts| && parts[0] != []
    ensures |Concat(parts[..k])| > 0
  {
    hide Concat;
    assert parts[..1] == [] + [parts[0]];
    ConcatAppend([], parts[0]);
    ConcatGrows(parts, 1, k);
  }

  // Where part k stands in the whole.
  lemma PartStands(parts: seq<seq<byte>>, k: nat)
    requires k < |parts| && parts[0] != [] && parts[|parts| - 1] != []
    ensures parts[..k + 1] == parts[..k] + [parts[k]]
    ensures var sent, total := |Concat(parts[..k])|, |Concat(parts)|;
            && (sent == 0 <==> k == 0) && sent + |parts[k]| <= total
            && (k + 1 < |parts| ==> sent + |parts[k]| < total) && (k + 1 == |parts| ==> sent + |parts[k]| == total)
  {
    assert Concat(parts[..0]) == [];
    ConcatAppend(parts[..k], parts[k]);
    hide Concat;
    assert parts[..k + 1] == parts[..k] + [parts[k]];
    if k > 0 {
      PrefixIsNotEmpty(parts, k);
    }
    if k + 1 < |parts| {
      PrefixIsShorter(parts, k + 1);
    } else {
      assert parts[..k + 1] == parts;
    }
  }

  // One fragment of an upload in progress is taken.
  lemma SendIsTaken(hash: seq<byte> -> seq<byte>, v: View, e: Event, total: nat)
    requires Consistent(v) && 17 <= total <= MAX_LARGE_BLOB_SIZE
    requires e.Do? && e.request.offset.Some? && e.request.fragment.Some?
    requires e.request.offset.value > 0 ==>
               v.s.active && v.declared == total && e.request.offset.value == |Concat(v.taken)|
    requires Sends(hash, e, e.request.offset.value, total)
    requires e.request.offset.value + |e.request.fragment.value| <= total
    ensures var begun := Begun(v, e.request, e.env.now);
            && Consistent(begun) && begun.s.active && begun.declared == total
            && begun.s.blob == v.s.blob
            && begun.taken == (if e.request.offset.value == 0 then [] else v.taken)
            && e.request.offset.value == begun.s.expectedNextOffset
            && Write(hash, v.s, e.request, e.env) ==
               Stage(hash, begun.s, e.request.offset.value, e.request.fragment.value, e.env)
  {
  }

  lemma FragmentsPrefix(hash: seq<byte> -> seq<byte>, events: seq<Event>, total: nat, k: nat)
    requires Uploads(hash, events, total) && k < |events|
    ensures forall e <- events[..k] :: e.Do? && e.request.fragment.Some?
    ensures forall e <- events[..k + 1] :: e.Do? && e.request.fragment.Some?
    ensures Fragments(events[..k + 1]) == Fragments(events[..k]) + [events[k].request.fragment.value]
    ensures var sent := |Concat(Fragments(events[..k]))|;
            && Sends(hash, events[k], sent, total) && (sent == 0 <==> k == 0)
            && sent + |events[k].request.fragment.value| <= total
            && (k + 1 < |events| ==> sent + |events[k].request.fragment.value| < total)
            && (k + 1 == |events| ==> sent + |events[k].request.fragment.value| == total)
  {
    hide Sends, Concat;
    var parts := Fragments(events);
    assert parts[0] != [] && parts[|parts| - 1] != [];
    assert Fragments(events[..k]) == parts[..k] && Fragments(events[..k + 1]) == parts[..k + 1];
    assert Sends(hash, events[k], |Concat(Fragments(events[..k]))|, total);
    PartStands(parts, k);
  }

  // While an upload is in progress the client's view is its own fragments.
  predicate InProgress(v: View, w: View, sent: seq<seq<byte>>, total: nat) {
    w.s.blob == v.s.blob && (sent != [] ==> w.s.active && w.declared == total && w.taken == sent)
  }

  // One more fragment of an upload in progress.
  lemma UploadStep(hash: seq<byte> -> seq<byte>, v: View, w: View, e: Event, sent: seq<seq<byte>>, total: nat)
    requires Consistent(w) && 17 <= total <= MAX_LARGE_BLOB_SIZE && InProgress(v, w, sent, total)
    requires Sends(hash, e, |Concat(sent)|, total) && (sent == [] <==> Concat(sent) == [])
    requires |Concat(sent)| + |e.request.fragment.value| <= total
    ensures var all := sent + [e.request.fragment.value];
            var (data, after) := (Concat(all), Step(hash, w, e));
            && |data| == |Concat(sent)| + |e.request.fragment.value|
            && (|data| < total ==> StatusOf(hash, w, e) == Success && InProgress(v, after, all, total))
            && (|data| == total ==>
                  && StatusOf(hash, w, e) == (if Intact(hash, data) then Success else IntegrityFailure)
                  && after.s.blob == if Intact(hash, data) && e.env.writes then data else v.s.blob)
  {
    var begun := Begun(w, e.request, e.env.now);
    SendIsTaken(hash, w, e, total);
    assert begun.taken == sent;
    ConcatAppend(sent, e.request.fragment.value);
    hide Concat, Stage, Intact, Authorize;
    StageKeepsConsistent(hash, begun, e.request.offset.value, e.request.fragment.value, e.env);
  }

  lemma {:induction false} UploadPrefix(hash: seq<byte> -> seq<byte>, v: View, events: seq<Event>, total: nat, k: nat)
    requires Consistent(v) && 17 <= total <= MAX_LARGE_BLOB_SIZE && Uploads(hash, events, total) && k < |events|
    ensures forall e <- events[..k] :: e.Do? && e.request.fragment.Some?
    ensures InProgress(v, Run(hash, v, events[..k]), Fragments(events[..k]), total)
    decreases k
  {
    hide Consistent, InProgress, Sends, StatusOf, Step, Concat, Intact;
    if k == 0 {
      assert events[..k] == [];
      NothingSent(v, total);
    } else {
      var before := Run(hash, v, events[..k - 1]);
      UploadPrefix(hash, v, events, total, k - 1);
      FragmentsPrefix(hash, events, total, k - 1);
      RunOne(hash, v, events, k - 1);
      EmptySent(Fragments(events[..k - 1]));
      UploadStep(hash, v, before, events[k - 1], Fragments(events[..k - 1]), total);
    }
  }

  lemma NothingSent(v: View, total: nat)
    ensures InProgress(v, v, [], total)
  {
  }

  lemma EmptySent(sent: seq<seq<byte>>)
    ensures sent == [] ==> Concat(sent) == []
  {
  }

  lemma RunOne(hash: seq<byte> -> seq<byte>, v: View, events: seq<Event>, k: nat)
    requires Consistent(v) && k < |events|
    ensures Run(hash, v, events[..k + 1]) == Step(hash, Run(hash, v, events[..k]), events[k])
  {
    hide Consistent, Step;
    assert events[..k + 1][..k] == events[..k] && events[..k + 1][k] == events[k];
  }

  // Whatever was pending before, an array sent in order is stored if and only if its last 16 bytes are
  // the truncated hash of the rest; every fragment before the last is answered with success.
  lemma UploadStoresIff(hash: seq<byte> -> seq<byte>, v: View, events: seq<Event>, total: nat)
    requires Consistent(v) && 17 <= total <= MAX_LARGE_BLOB_SIZE && Uploads(hash, events, total) && events != []
    requires forall e <- events :: e.env.writes
    ensures forall i | 0 <= i < |events| - 1 ::
              events[i].Do? && StatusOf(hash, Run(hash, v, events[..i]), events[i]) == Success
    ensures var data := Concat(Fragments(events));
            var n := |events| - 1;
            && (StatusOf(hash, Run(hash, v, events[..n]), events[n]) == Success <==> Intact(hash, data))
            && Run(hash, v, events).s.blob == if Intact(hash, data) then data else v.s.blob
  {
    hide Consistent, InProgress, Sends, StatusOf, Step, Concat, Intact;
    var n := |events| - 1;
    forall i | 0 <= i < n
      ensures events[i].Do? && StatusOf(hash, Run(hash, v, events[..i]), events[i]) == Success
    {
      UploadPrefix(hash, v, events, total, i);
      FragmentsPrefix(hash, events, total, i);
      EmptySent(Fragments(events[..i]));
      UploadStep(hash, v, Run(hash, v, events[..i]), events[i], Fragments(events[..i]), total);
    }
    UploadPrefix(hash, v, events, total, n);
    FragmentsPrefix(hash, events, total, n);
    EmptySent(Fragments(events[..n]));
    UploadStep(hash, v, Run(hash, v, events[..n]), events[n], Fragments(events[..n]), total);
    RunOne(hash, v, events, n);
    KeptBlob(v, Run(hash, v, events[..n]), Fragments(events[..n]), total);
    assert events[..n + 1] == events && events[n] in events;
  }

  lemma KeptBlob(v: View, w: View, sent: seq<seq<byte>>, total: nat)
    requires InProgress(v, w, sent, total)
    ensures w.s.blob == v.s.blob
  {
  }

  // An upload whose first fragment is empty cannot be continued: every fragment without a declared
  // length is refused, since the one that is due has offset 0 again.
  lemma EmptyFirstFragmentStalls(hash: seq<byte> -> seq<byte>, v: View, r: Request, env: Env, next: Request, later: Env)
    requires Consistent(v) && Starts(r) && r.fragment == Some([])
    requires StatusOf(hash, v, Do(r, env)) == Success
    requires Shape(next) == Success && next.fragment.Some? && next.length.None?
    ensures var w := Step(hash, v, Do(r, env));
            Consistent(w) && w.s.active
            && StatusOf(hash, w, Do(next, later)) in {InvalidLen, InvalidParameter, InvalidSeq}
  {
    StepKeepsConsistent(hash, v, Do(r, env));
    WriteCases(hash, v, r, env);
  }

  // ---------------------------------------------------------------- reading back

  function PageRequest(len: nat, offset: nat): Request {
    Request(Some(len), None, Some(offset), None, None, None)
  }

  // A client that asks for pages of the given sizes, each from where the last one ended.
  function Download(blob: seq<byte>, offset: nat, lens: seq<nat>): seq<byte>
    decreases |lens|
  {
    if lens == [] then []
    else
      var page := Read(blob, PageRequest(lens[0], offset)).0;
      page + Download(blob, offset + |page|, lens[1..])
  }

  // Where n bytes from `offset` end.
  function End(blob: seq<byte>, offset: nat, n: nat): (end: nat)
    requires offset <= |blob|
    ensures offset <= end <= |blob|
  {
    if offset + n < |blob| then offset + n else |blob|
  }

  lemma DownloadStep(blob: seq<byte>, offset: nat, lens: seq<nat>)
    requires offset <= |blob| && lens != [] && lens[0] <= MAX_FRAGMENT_LENGTH
    ensures var next := End(blob, offset, lens[0]);
            Download(blob, offset, lens) == blob[offset..next] + Download(blob, next, lens[1..])
  {
    hide Read, End, PageRequest;
    ReadGivesPage(blob, offset, lens[0]);
  }

  lemma ReadGivesPage(blob: seq<byte>, offset: nat, len: nat)
    requires offset <= |blob| && len <= MAX_FRAGMENT_LENGTH
    ensures Read(blob, PageRequest(len, offset)).0 == blob[offset..End(blob, offset, len)]
  {
  }

  lemma EndOfRest(blob: seq<byte>, offset: nat, a: nat, b: nat)
    requires offset <= |blob|
    ensures End(blob, End(blob, offset, a), b) == End(blob, offset, a + b)
  {
  }

  lemma {:induction false} DownloadIsPrefix(blob: seq<byte>, offset: nat, lens: seq<nat>)
    requires offset <= |blob| && forall len <- lens :: len <= MAX_FRAGMENT_LENGTH
    ensures Download(blob, offset, lens) == blob[offset..End(blob, offset, Sum(lens))]
    decreases |lens|
  {
    hide End, Read;
    if lens == [] {
      assert End(blob, offset, 0) == offset by { EndOfNothing(blob, offset); }
    } else {
      hide Download;
      assert lens[0] in lens;
      forall len | len in lens[1..]
        ensures len in lens
      {
      }
      var next := End(blob, offset, lens[0]);
      DownloadStep(blob, offset, lens);
      DownloadIsPrefix(blob, next, lens[1..]);
      EndOfRest(blob, offset, lens[0], Sum(lens[1..]));
      Joined(blob, offset, next, End(blob, offset, Sum(lens)));
    }
  }

  lemma EndOfNothing(blob: seq<byte>, offset: nat)
    requires offset <= |blob|
    ensures End(blob, offset, 0) == offset
  {
  }

  // Pages of any sizes give back the whole stored array if and only if they are enough for it.
  lemma DownloadCompleteIff(blob: seq<byte>, lens: seq<nat>)
    requires forall len <- lens :: len <= MAX_FRAGMENT_LENGTH
    ensures Download(blob, 0, lens) == blob <==> Sum(lens) >= |blob|
  {
    DownloadIsPrefix(blob, 0, lens);
  }

  // ---------------------------------------------------------------- the command handler and its globals

  class LargeBlobStore {
    const hash: seq<byte> -> seq<byte>
    var expectedLength: nat
    var expectedNextOffset: nat
    var timer: nat
    var active: bool
    const temp: array<byte>
    var blob: seq<byte>      // the stored file

    ghost predicate Valid()
      reads this, temp
    {
      temp.Length == MAX_LARGE_BLOB_SIZE && expectedLength <= MAX_LARGE_BLOB_SIZE
    }

    ghost function Now(): State
      reads this, temp
    {
      State(expectedLength, expectedNextOffset, timer, active, temp[..], blob)
    }

    constructor (hash: seq<byte> -> seq<byte>, blob: seq<byte>)
      ensures Valid() && fresh(temp) && this.hash == hash && this.blob == blob
      ensures Consistent(View(Now(), 0, []))
    {
      this.hash := hash;
      this.blob := blob;
      temp := new byte[MAX_LARGE_BLOB_SIZE](_ => 0);
      expectedLength := 0;
      expectedNextOffset := 0;
      timer := 0;
      active := false;
    }

    method OnTick(now: nat)
      requires Valid()
      modifies this`expectedLength, this`expectedNextOffset, this`active
      ensures Valid() && Now() == Tick(old(Now()), now)
    {
      if active && (now - timer) % 0x1_0000_0000 >= IDLE_MS {
        expectedLength := 0;
        expectedNextOffset := 0;
        active := false;
      }
    }

    method Handle(r: Request, env: Env) returns (page: seq<byte>, status: Status)
      requires Valid()
      modifies this, temp
      ensures Valid() && (Now(), page, status) == Command(hash, old(Now()), r, env)
    {
      page := [];
      if r.protocol.Some? && r.protocol.value != 1 && r.protocol.value != 2 {
        return page, InvalidParameter;
      }
      if r.offset.None? || r.get.Some? == r.fragment.Some? {
        return page, InvalidParameter;
      }
      if r.get.Some? {
        page, status := HandleRead(r);
      } else {
        status := HandleWrite(r, env);
      }
    }

    method HandleRead(r: Request) returns (page: seq<byte>, status: Status)
      requires r.get.Some? && r.offset.Some?
      ensures (page, status) == Read(blob, r)
    {
      page := [];
      if r.length.Some? || r.param.Some? || r.protocol.Some? {
        return page, InvalidParameter;
      }
      if r.get.value > MAX_FRAGMENT_LENGTH {
        return page, InvalidLen;
      }
      var offset := r.offset.value;
      if offset > |blob| {
        return page, InvalidParameter;
      }
      var len := |blob| - offset;
      if r.get.value < len {
        len := r.get.value;
      }
      page := blob[offset..offset + len];
      status := Success;
    }

    method HandleWrite(r: Request, env: Env) returns (status: Status)
      requires Valid() && r.fragment.Some? && r.offset.Some?
      modifies this, temp
      ensures Valid() && (Now(), status) == Write(hash, old(Now()), r, env)
    {
      var fragment, offset := r.fragment.value, r.offset.value;
      if |fragment| > MAX_FRAGMENT_LENGTH {
        return InvalidLen;
      }
      var length := if r.length.Some? then r.length.value else 0;
      if offset == 0 {
        status := Restart(length, env.now);
        if status != Success {
          return;
        }
      } else if length != 0 {
        return InvalidParameter;
      }
      if offset != expectedNextOffset {
        return InvalidSeq;
      }
      status := Authorize(hash, r, offset, fragment, env);
      if status != Success {
        return;
      }
      if offset + |fragment| > expectedLength {
        return InvalidParameter;
      }
      status := Accept(offset, fragment, env);
    }

    method Restart(length: nat, now: nat) returns (status: Status)
      requires Valid()
      modifies this`expectedLength, this`expectedNextOffset, this`timer, this`active
      ensures Valid() && (Now(), status) == Begin(old(Now()), 0, length, now)
    {
      if length == 0 {
        return InvalidParameter;
      }
      if length > MAX_LARGE_BLOB_SIZE {
        return StorageFull;
      }
      if length < 17 {
        return InvalidParameter;
      }
      expectedLength := length;
      expectedNextOffset := 0;
      timer := now;
      active := true;
      status := Success;
    }

    method Accept(offset: nat, fragment: seq<byte>, env: Env) returns (status: Status)
      requires Valid() && expectedNextOffset + |fragment| <= expectedLength
      modifies this, temp
      ensures Valid() && (Now(), status) == Stage(hash, old(Now()), offset, fragment, env)
    {
      hide Splice, Commit;
      if offset == 0 {
        Copy(temp, 0, Zeros(MAX_LARGE_BLOB_SIZE));
        Overwritten(old(temp[..]), Zeros(MAX_LARGE_BLOB_SIZE));
      }
      Copy(temp, expectedNextOffset, fragment);
      expectedNextOffset := expectedNextOffset + |fragment|;
      timer := env.now;
      status := CommitStaged(env);
    }

    // The check and the file write once everything has arrived.
    method CommitStaged(env: Env) returns (status: Status)
      requires Valid()
      modifies this`expectedLength, this`expectedNextOffset, this`active, this`blob
      ensures Valid() && (Now(), status) == Commit(hash, old(Now()), env)
    {
      hide Intact;
      status := Success;
      if expectedNextOffset == expectedLength {
        if !Intact(hash, temp[..expectedLength]) {
          return IntegrityFailure;
        }
        if env.writes {
          blob := temp[..expectedLength];
        }
        expectedLength := 0;
        expectedNextOffset := 0;
        active := false;
      }
    }
  }

  lemma Overwritten(buf: seq<byte>, src: seq<byte>)
    requires |buf| == |src|
    ensures Splice(buf, 0, src) == src
  {
  }
}
