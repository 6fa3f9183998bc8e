/** PIN retries, soft lock and device-key wrapping (src/fido/cbor_client_pin.c and
    src/fido/fido.c; section 6.5 of CTAP 2.1), as a machine over its persistent files.

    A flash write is visible at once but certain to survive power loss only after a
    successful synchronous commit; until then any value written since may be what is found. */
module ClientPin {
  import opened Bytes

  const MAX_RETRIES: nat := 8

  // The left half of the hash of a PIN, as the platform sends it.
  type PinHash = seq<byte>

  // pin_derive_verifier, double_hash_pin, pin_derive_session, hash_multi; AES-GCM under a
  // session key, KDF version 1 or 2 and a nonce; the two AES-CBC layers without a PIN.
  datatype Crypto = Crypto(
    verifier: PinHash -> seq<byte>, legacyVerifier: PinHash -> seq<byte>,
    session: PinHash -> seq<byte>, legacySession: PinHash -> seq<byte>,
    seal: (seq<byte>, nat, nat, seq<byte>) -> seq<byte>,
    open: (seq<byte>, nat, seq<byte>) -> Option<seq<byte>>,
    baseEncrypt: seq<byte> -> seq<byte>, baseDecrypt: seq<byte> -> seq<byte>,
    rawDecrypt: seq<byte> -> seq<byte>)

  // Ideal inverses, and no two PINs with one verifier but different sessions.
  ghost predicate Lawful(c: Crypto) {
    && (forall k: seq<byte>, v: nat, n: nat, x: seq<byte> :: c.open(k, v, c.seal(k, v, n, x)) == Some(x))
    && (forall x: seq<byte> :: c.baseDecrypt(c.baseEncrypt(x)) == x)
    && (forall p: PinHash, q: PinHash :: c.verifier(p) == c.verifier(q) ==> c.session(p) == c.session(q))
    && (forall p: PinHash, q: PinHash ::
          c.legacyVerifier(p) == c.legacyVerifier(q) ==> c.legacySession(p) == c.legacySession(q))
  }

  // Under another session key a sealed value does not open.
  ghost predicate Authentic(c: Crypto) {
    forall k: seq<byte>, k': seq<byte>, v: nat, n: nat, x: seq<byte> ::
      k != k' ==> c.open(k', v, c.seal(k, v, n, x)) == None
  }

  // ---------------------------------------------------------------- files

  // Retry byte (count and soft-lock marker), format, code points, verifier.
  datatype PinRecord =
    | Malformed(count: nat)
    | Record(count: nat, marker: bool, legacy: bool, codePoints: nat, verifier: seq<byte>)

  // The 32-byte legacy file, and formats 0x01, 0x02 and 0x03.
  datatype KeyFile =
    | Absent
    | Raw(bytes: seq<byte>)
    | Plain(blob: seq<byte>)
    | WrappedV1(sealed: seq<byte>)
    | WrappedV2(sealed: seq<byte>)

  datatype Files = Files(pin: Option<PinRecord>, key: KeyFile)

  predicate Verifies(c: Crypto, rec: PinRecord, p: PinHash) {
    rec.Record? && rec.verifier == if rec.legacy then c.legacyVerifier(p) else c.verifier(p)
  }

  function SessionFor(c: Crypto, rec: PinRecord, p: PinHash): seq<byte>
    requires rec.Record?
  {
    if rec.legacy then c.legacySession(p) else c.session(p)
  }

  // ---------------------------------------------------------------- device key

  // load_keydev: the key under a session, or none.
  function OpenKey(c: Crypto, session: seq<byte>, file: KeyFile): Option<seq<byte>> {
    match file
    case Absent => None
    case Raw(b) => Some(c.rawDecrypt(b))
    case Plain(x) => Some(c.baseDecrypt(x))
    case WrappedV1(w) => if c.open(session, 1, w).Some? then Some(c.baseDecrypt(c.open(session, 1, w).value)) else None
    case WrappedV2(w) => if c.open(session, 2, w).Some? then Some(c.baseDecrypt(c.open(session, 2, w).value)) else None
  }

  // load_keydev rewraps format 0x02 as 0x03 on the way.
  function Rewrapped(c: Crypto, session: seq<byte>, file: KeyFile, nonce: nat): KeyFile {
    if file.WrappedV1? && c.open(session, 1, file.sealed).Some?
    then WrappedV2(c.seal(session, 2, nonce, c.open(session, 1, file.sealed).value))
    else file
  }

  // encrypt_keydev_f1
  function Unwrapped(c: Crypto, key: seq<byte>): KeyFile {
    Plain(c.baseEncrypt(key))
  }

  // check_keydev_encrypted tests the first byte of the file and nothing else, so it also
  // takes a 32-byte legacy file that happens to start with 0x01; `stray` is the byte found
  // behind such a file.
  function Wrapped(c: Crypto, session: seq<byte>, file: KeyFile, nonce: nat, stray: byte): KeyFile {
    match file
    case Plain(x) => WrappedV2(c.seal(session, 2, nonce, x))
    case Raw(b) => if b != [] && b[0] == 1 then WrappedV2(c.seal(session, 2, nonce, b[1..] + [stray])) else file
    case _ => file
  }

  // ---------------------------------------------------------------- state

  // What the flash may hold after a power loss, and the PIN comparisons made since the last reset to 8
  // that this content knows of.
  datatype Candidate = Candidate(files: Files, guesses: nat)

  // needs_power_cycle, new_pin_mismatches, session_pin, keydev_unlocked. `maybe` lists every content the
  // flash may be left in; `guesses` counts PIN comparisons since the retry count was last set to 8 in what
  // is visible now, and `misses` the failed ones since power-up or success.
  datatype State = State(files: Files, maybe: seq<Candidate>, locked: bool, mismatches: nat,
                         session: seq<byte>, unlocked: bool, guesses: nat, misses: nat)

  datatype Sync = NotWritten | NotSynced | Synced

  datatype Status = Success | MissingParameter | InvalidParameter | NotAllowed | PinNotSet | PinBlocked
                  | PinAuthBlocked | PinAuthInvalid | PinInvalid | PolicyViolation | Processing

  function WriteFiles(s: State, f: Files): State {
    s.(files := f, maybe := s.maybe + [Candidate(f, s.guesses)])
  }

  // A comparison counts against every content that may survive it.
  function CountGuess(s: State): (t: State)
    ensures |t.maybe| == |s.maybe|
    ensures forall i | 0 <= i < |s.maybe| :: t.maybe[i] == s.maybe[i].(guesses := s.maybe[i].guesses + 1)
  {
    s.(guesses := s.guesses + 1, maybe := OneMore(s.maybe))
  }

  function OneMore(maybe: seq<Candidate>): (more: seq<Candidate>)
    ensures |more| == |maybe|
    ensures forall i | 0 <= i < |maybe| :: more[i] == maybe[i].(guesses := maybe[i].guesses + 1)
  {
    seq(|maybe|, i requires 0 <= i < |maybe| => maybe[i].(guesses := maybe[i].guesses + 1))
  }

  // Writing a record with a full count starts a new series of guesses, for this content only.
  function WriteFresh(s: State, rec: PinRecord): State {
    WritePin(s.(guesses := 0), rec)
  }

  function WritePin(s: State, rec: PinRecord): State {
    WriteFiles(s, s.files.(pin := Some(rec)))
  }

  // The PIN file and everything that counts attempts are untouched.
  predicate SamePin(s: State, t: State) {
    t.files.pin == s.files.pin && t.locked == s.locked && t.mismatches == s.mismatches &&
    t.guesses == s.guesses && t.misses == s.misses
  }

  function WriteKey(s: State, key: KeyFile): (t: State)
    ensures SamePin(s, t)
  {
    if key == s.files.key then s else WriteFiles(s, s.files.(key := key))
  }

  // persist_pin_retry_counter: true only after the write is known to be in flash.
  function Persist(s: State, rec: PinRecord, sync: Sync): (State, bool) {
    var f := s.files.(pin := Some(rec));
    match sync
    case NotWritten => (s, false)
    case NotSynced => (WriteFiles(s, f), false)
    case Synced => (s.(files := f, maybe := [Candidate(f, s.guesses)]), true)
  }

  // ---------------------------------------------------------------- one PIN attempt

  // The decrypted PIN hash (none if decryption fails), how the flash behaves, and nonces.
  datatype Env = Env(sync1: Sync, sync2: Sync, nonces: nat -> nat, stray: byte, forceChange: bool)

  datatype Attempt = Refused(status: Status) | Correct(rec: PinRecord)

  // The part changePIN and getToken share: decrement and persist, then compare.
  function TryPin(c: Crypto, s: State, p: Option<PinHash>, env: Env): (State, Attempt)
    requires s.files.pin.Some? && s.files.pin.value.count > 0
  {
    var stored := s.files.pin.value;
    if stored.Malformed? then (s, Refused(Processing))
    else
      var rec := stored.(count := stored.count - 1);
      var (s1, durable) := Persist(s, rec, env.sync1);
      if !durable then (s1, Refused(Processing))
      else if p.None? then (s1, Refused(PinAuthInvalid))
      else
        var s2 := CountGuess(s1);
        if !Verifies(c, rec, p.value) then Mismatch(s2.(misses := s2.misses + 1), rec, env)
        else if s2.locked then (s2, Refused(PinAuthBlocked))
        else (s2, Correct(rec))
  }

  function Mismatch(s: State, rec: PinRecord, env: Env): (State, Attempt)
    requires rec.Record?
  {
    if rec.count == 0 then (s, Refused(PinBlocked))
    else if rec.marker then (s.(locked := true), Refused(PinAuthBlocked))
    else
      var m := (s.mismatches + 1) % 256;
      var s1 := s.(mismatches := m);
      if m < 3 then (s1, Refused(PinInvalid))
      else
        var (s2, durable) := Persist(s1, rec.(marker := true), env.sync2);
        if !durable then (s2, Refused(Processing)) else (s2.(locked := true), Refused(PinAuthBlocked))
  }

  // A verified legacy record: take the device key out of its legacy wrapping.
  function Upgrade(c: Crypto, s: State, rec: PinRecord, p: PinHash, env: Env): (r: (State, bool))
    requires rec.Record?
    ensures SamePin(s, r.0)
  {
    if !rec.legacy then (s, true)
    else
      var session := c.legacySession(p);
      var key := OpenKey(c, session, s.files.key);
      var s1 := WriteKey(s.(session := session, unlocked := s.unlocked || (key.Some? && IsWrapped(s.files.key))),
                         Rewrapped(c, session, s.files.key, env.nonces(0)));
      if key.None? then (s1, false) else (WriteKey(s1, Unwrapped(c, key.value)), true)
  }

  predicate IsWrapped(file: KeyFile) {
    file.WrappedV1? || file.WrappedV2?
  }

  // check_keydev_encrypted under the session key of a PIN.
  function WrapKey(c: Crypto, s: State, p: PinHash, nonce: nat, stray: byte): (t: State)
    ensures SamePin(s, t)
  {
    var key := Wrapped(c, c.session(p), s.files.key, nonce, stray);
    WriteKey(s.(session := c.session(p), unlocked := s.unlocked || key != s.files.key), key)
  }

  function FreshRecord(c: Crypto, p: PinHash, codePoints: nat): PinRecord {
    Record(MAX_RETRIES, false, false, codePoints, c.verifier(p))
  }

  // ---------------------------------------------------------------- commands

  // getPinUvAuthTokenUsingPinWithPermissions and getPinToken
  datatype TokenRequest = TokenRequest(present: bool, permitted: bool, ecdhOk: bool, pin: Option<PinHash>)

  function GetToken(c: Crypto, s: State, q: TokenRequest, env: Env): (State, Status) {
    if !q.present then (s, MissingParameter)
    else if !q.permitted then (s, InvalidParameter)
    else if s.files.pin.None? then (s, PinNotSet)
    else if s.files.pin.value.count == 0 then (s, PinBlocked)
    else if !q.ecdhOk then (s, InvalidParameter)
    else
      var (s1, attempt) := TryPin(c, s, q.pin, env);
      if attempt.Refused? then (s1, attempt.status) else UseToken(c, s1, attempt.rec, q.pin.value, env)
  }

  function UseToken(c: Crypto, s: State, rec: PinRecord, p: PinHash, env: Env): (State, Status)
    requires rec.Record?
  {
    var (s1, upgraded) := Upgrade(c, s, rec, p, env);
    if !upgraded then (s1, PinInvalid)
    else
      var s2 := WrapKey(c, s1, p, env.nonces(1), env.stray);
      var key := OpenKey(c, s2.session, s2.files.key);
      var s3 := WriteKey(s2, Rewrapped(c, s2.session, s2.files.key, env.nonces(2))).(unlocked := key.Some?);
      if key.None? then (s3, Processing) else GrantToken(c, s3, p, rec.codePoints, env.forceChange)
  }

  // The new record is stored; a pending change of PIN still refuses the token.
  function GrantToken(c: Crypto, s: State, p: PinHash, codePoints: nat, forceChange: bool): (State, Status) {
    var t := WriteFresh(s, FreshRecord(c, p, codePoints)).(mismatches := 0, misses := 0);
    if forceChange then (t, PinInvalid) else (t.(locked := false), Success)
  }

  // The new PIN after decryption: its hash and length, and whether the length, minimum and
  // complexity policies accept it.
  datatype NewPin = NewPin(decrypted: bool, accepted: bool, hash: PinHash, codePoints: nat)

  datatype ChangeRequest = ChangeRequest(present: bool, lengthsOk: bool, ecdhOk: bool, authOk: bool,
                                         pin: Option<PinHash>, newPin: NewPin)

  function ChangePin(c: Crypto, s: State, q: ChangeRequest, env: Env): (State, Status) {
    if !q.present then (s, MissingParameter)
    else if s.files.pin.None? then (s, PinNotSet)
    else if s.files.pin.value.count == 0 then (s, PinBlocked)
    else if s.locked then (s, PinAuthBlocked)
    else if !q.lengthsOk || !q.ecdhOk then (s, InvalidParameter)
    else if !q.authOk then (s, PinAuthInvalid)
    else
      var (s1, attempt) := TryPin(c, s, q.pin, env);
      if attempt.Refused? then (s1, attempt.status) else ReplacePin(c, s1, attempt.rec, q.pin.value, q.newPin, env)
  }

  function ReplacePin(c: Crypto, s: State, rec: PinRecord, p: PinHash, n: NewPin, env: Env): (State, Status)
    requires rec.Record?
  {
    var (s1, upgraded) := Upgrade(c, s, rec, p, env);
    if !upgraded then (s1, PinInvalid)
    else
      var s2 := Restored(c, s1, p, rec.codePoints, env);
      if !n.decrypted then (s2, PinAuthInvalid)
      else if !n.accepted then (s2, PolicyViolation)
      else Install(c, s2, p, n, env)
  }

  // The retry count comes back under the old PIN before the new one is looked at.
  function Restored(c: Crypto, s: State, p: PinHash, codePoints: nat, env: Env): State {
    WrapKey(c, WriteFresh(s, FreshRecord(c, p, codePoints)), p, env.nonces(1), env.stray).(mismatches := 0, misses := 0)
  }

  function Install(c: Crypto, s: State, p: PinHash, n: NewPin, env: Env): (State, Status) {
    var key := OpenKey(c, s.session, s.files.key);
    var s1 := WriteKey(s, Rewrapped(c, s.session, s.files.key, env.nonces(2)));
    if key.None? then (s1, PinInvalid)
    else
      StorePin(c, Rekeyed(c, s1.(unlocked := s1.unlocked || IsWrapped(s.files.key)), n.hash, env, key.value),
               p, n, env.forceChange)
  }

  // A PIN that has to be changed may not be set again.
  function StorePin(c: Crypto, s: State, p: PinHash, n: NewPin, forceChange: bool): (State, Status) {
    if forceChange && c.verifier(n.hash) == c.verifier(p) then (s, PolicyViolation)
    else (WriteFresh(s, FreshRecord(c, n.hash, n.codePoints)).(locked := false), Success)
  }

  // The key goes to the new session through format 0x01.
  function Rekeyed(c: Crypto, s: State, n: PinHash, env: Env, key: seq<byte>): State {
    WrapKey(c, WriteKey(s, Unwrapped(c, key)), n, env.nonces(3), env.stray)
  }

  datatype SetRequest = SetRequest(present: bool, lengthsOk: bool, ecdhOk: bool, authOk: bool, newPin: NewPin)

  function SetPin(c: Crypto, s: State, q: SetRequest, env: Env): (State, Status) {
    if !q.present then (s, MissingParameter)
    else if s.files.pin.Some? then (s, NotAllowed)
    else if !q.lengthsOk || !q.ecdhOk then (s, InvalidParameter)
    else if !q.authOk || !q.newPin.decrypted then (s, PinAuthInvalid)
    else if !q.newPin.accepted then (s, PolicyViolation)
    else
      var s1 := WriteFresh(s, FreshRecord(c, q.newPin.hash, q.newPin.codePoints));
      (WrapKey(c, s1, q.newPin.hash, env.nonces(0), env.stray).(mismatches := 0, misses := 0, locked := false), Success)
  }

  // ---------------------------------------------------------------- events

  datatype Event =
    | GetTokenCmd(ask: TokenRequest, env: Env)
    | ChangePinCmd(change: ChangeRequest, env: Env)
    | SetPinCmd(request: SetRequest, env: Env)
    | PowerLoss(found: nat)
    | InitFido
    | AuthenticatorReset(key: KeyFile)

  // Power loss keeps one of the possible file states and clears RAM. A cut in the middle of a command is
  // that command, with the flash behaving as it did, and then a power loss to a content written before the
  // cut. init_fido clears only needs_power_cycle and keydev_unlocked; the authenticator reset deletes the PIN.
  function Step(c: Crypto, s: State, e: Event): (State, Status) {
    match e
    case GetTokenCmd(q, env) => GetToken(c, s, q, env)
    case ChangePinCmd(q, env) => ChangePin(c, s, q, env)
    case SetPinCmd(q, env) => SetPin(c, s, q, env)
    case PowerLoss(i) =>
      var found := if i < |s.maybe| then s.maybe[i] else Candidate(s.files, s.guesses);
      (State(found.files, [found], false, 0, [], false, found.guesses, 0), Success)
    case InitFido => (s.(locked := false, unlocked := false), Success)
    case AuthenticatorReset(key) =>
      (WriteFiles(s.(guesses := 0), Files(None, key)).(locked := false, unlocked := false), Success)
  }

  function Run(c: Crypto, s: State, events: seq<Event>): State
    decreases |events|
  {
    if events == [] then s else Run(c, Step(c, s, events[0]).0, events[1..])
  }
}
