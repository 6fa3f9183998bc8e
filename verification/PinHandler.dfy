/** The clientPIN handlers step by step (src/fido/cbor_client_pin.c, src/fido/fido.c): the bytes of the
    PIN file, the retry counter and its soft-lock bit, and the globals, against the machine of ClientPin. */
module PinHandler {
  import opened Bytes
  import opened ClientPin

  const PIN_LEGACY_DATA_LEN: nat := 34
  const PIN_DATA_LEN: nat := 35
  const PIN_RETRY_POWER_CYCLE: nat := 0x80

  // The PIN file: retry byte, code points, a format byte in the current format, the verifier.
  function Parse(b: seq<byte>): PinRecord
    requires b != []
  {
    if |b| == PIN_DATA_LEN then Record(b[0] % 0x80, b[0] >= PIN_RETRY_POWER_CYCLE, false, b[1], b[3..])
    else if |b| == PIN_LEGACY_DATA_LEN then Record(b[0] % 0x80, b[0] >= PIN_RETRY_POWER_CYCLE, true, b[1], b[2..])
    else Malformed(b[0] % 0x80)
  }

  lemma WriteKeyKeepsUnlocked(s: State, key: KeyFile)
    ensures WriteKey(s, key).unlocked == s.unlocked
  {
  }

  lemma WriteKeyIgnoresUnlocked(s: State, key: KeyFile, unlocked: bool)
    ensures WriteKey(s.(unlocked := unlocked), key) == WriteKey(s, key).(unlocked := unlocked)
  {
  }

  lemma ParsedCount(b: seq<byte>)
    requires b != []
    ensures Parse(b).count == b[0] % 0x80
    ensures Parse(b).Record? <==> |b| == PIN_LEGACY_DATA_LEN || |b| == PIN_DATA_LEN
  {
  }

  lemma ParsedFields(b: seq<byte>)
    requires |b| == PIN_LEGACY_DATA_LEN || |b| == PIN_DATA_LEN
    ensures Parse(b).Record? && Parse(b).codePoints == b[1]
  {
  }

  lemma ParsedRetry(b: seq<byte>)
    requires |b| == PIN_LEGACY_DATA_LEN || |b| == PIN_DATA_LEN
    ensures Parse(b).Record? && Parse(b).count == b[0] % 0x80 && Parse(b).marker == (b[0] >= PIN_RETRY_POWER_CYCLE)
  {
  }

  // Setting the lock bit of the retry byte sets the marker and nothing else.
  lemma MarkedRecord(b: seq<byte>)
    requires (|b| == PIN_LEGACY_DATA_LEN || |b| == PIN_DATA_LEN) && b[0] < PIN_RETRY_POWER_CYCLE
    ensures Parse(b).Record? && Parse(b[0 := b[0] + PIN_RETRY_POWER_CYCLE]) == Parse(b).(marker := true)
  {
    var b' := b[0 := b[0] + PIN_RETRY_POWER_CYCLE];
    assert b'[1..] == b[1..];
    assert b'[2..] == b'[1..][1..] && b[2..] == b[1..][1..];
    assert b'[3..] == b'[1..][2..] && b[3..] == b[1..][2..];
  }

  // Verifiers are 32 bytes.
  ghost predicate Sized(c: Crypto) {
    forall p: PinHash :: |c.verifier(p)| == 32 && |c.legacyVerifier(p)| == 32
  }

  // TryPin once the decremented record is in flash.
  function Compared(c: Crypto, s: State, rec: PinRecord, p: PinHash, env: Env): (State, Attempt)
    requires rec.Record?
  {
    var s1 := CountGuess(s);
    if !Verifies(c, rec, p) then Mismatch(s1.(misses := s1.misses + 1), rec, env)
    else if s1.locked then (s1, Refused(PinAuthBlocked))
    else (s1, Correct(rec))
  }

  class PinStore {
    const c: Crypto
    var pinFile: Option<seq<byte>>
    var keyFile: KeyFile
    var needsPowerCycle: bool
    var newPinMismatches: nat
    var sessionPin: seq<byte>
    var keydevUnlocked: bool
    ghost var maybe: seq<Candidate>
    ghost var guesses: nat
    ghost var misses: nat

    ghost predicate Valid()
      reads this
    {
      Sized(c) && (pinFile.Some? ==> |pinFile.value| > 0)
    }

    ghost function Stored(): Files
      reads this
      requires Valid()
    {
      Files(if pinFile.None? then None else Some(Parse(pinFile.value)), keyFile)
    }

    // The state of the machine.
    ghost function Now(): State
      reads this
      requires Valid()
    {
      State(Stored(), maybe, needsPowerCycle, newPinMismatches, sessionPin, keydevUnlocked, guesses, misses)
    }

    // Power-up with what the flash holds.
    constructor (c: Crypto, pinFile: Option<seq<byte>>, keyFile: KeyFile, ghost guesses: nat)
      requires Sized(c) && pinFile != Some([])
      ensures Valid() && this.c == c && this.pinFile == pinFile && this.keyFile == keyFile
      ensures Now() == State(Stored(), [Candidate(Stored(), guesses)], false, 0, [], false, guesses, 0)
    {
      this.c := c;
      this.pinFile := pinFile;
      this.keyFile := keyFile;
      needsPowerCycle, newPinMismatches, sessionPin, keydevUnlocked := false, 0, [], false;
      this.guesses, misses := guesses, 0;
      new;
      maybe := [Candidate(Stored(), guesses)];
    }

    // file_put_data and an asynchronous flash_commit
    method PutPin(data: seq<byte>)
      requires Valid() && data != []
      modifies `pinFile, `maybe
      ensures Valid() && Now() == WritePin(old(Now()), Parse(data))
    {
      pinFile := Some(data);
      maybe := maybe + [Candidate(Stored(), guesses)];
    }

    method PutKey(key: KeyFile)
      requires Valid() && key != keyFile
      modifies `keyFile, `maybe
      ensures Valid() && Now() == WriteKey(old(Now()), key)
    {
      keyFile := key;
      maybe := maybe + [Candidate(Stored(), guesses)];
    }

    // persist_pin_retry_counter
    method PersistRetryCounter(data: seq<byte>, sync: Sync) returns (durable: bool)
      requires Valid() && data != []
      modifies `pinFile, `maybe
      ensures Valid() && (Now(), durable) == Persist(old(Now()), Parse(data), sync)
    {
      if sync == NotWritten {
        return false;
      }
      pinFile := Some(data);
      if sync == NotSynced {
        maybe := maybe + [Candidate(Stored(), guesses)];
        return false;
      }
      maybe := [Candidate(Stored(), guesses)];
      durable := true;
    }

    // load_keydev, which rewraps format 0x02
    method LoadKeydev(nonce: nat) returns (key: Option<seq<byte>>)
      requires Valid()
      modifies `keyFile, `maybe, `keydevUnlocked
      ensures Valid() && key == OpenKey(c, sessionPin, old(keyFile))
      ensures Now() == WriteKey(old(Now()), Rewrapped(c, sessionPin, old(keyFile), nonce)).(
                         unlocked := old(keydevUnlocked) || (key.Some? && IsWrapped(old(keyFile))))
    {
      var wrapped := false;
      match keyFile {
        case Absent => return None;
        case Raw(b) => key := Some(c.rawDecrypt(b));
        case Plain(x) => key := Some(c.baseDecrypt(x));
        case WrappedV1(w) =>
          var inner := c.open(sessionPin, 1, w);
          if inner.None? {
            return None;
          }
          PutKey(WrappedV2(c.seal(sessionPin, 2, nonce, inner.value)));
          key := Some(c.baseDecrypt(inner.value));
          wrapped := true;
        case WrappedV2(w) =>
          var inner := c.open(sessionPin, 2, w);
          if inner.None? {
            return None;
          }
          key := Some(c.baseDecrypt(inner.value));
          wrapped := true;
      }
      if wrapped {
        keydevUnlocked := true;
      }
    }

    // pin_derive_session, then check_keydev_encrypted
    method CheckKeydevEncrypted(p: PinHash, nonce: nat, stray: byte)
      requires Valid()
      modifies `sessionPin, `keyFile, `maybe, `keydevUnlocked
      ensures Valid() && Now() == WrapKey(c, old(Now()), p, nonce, stray)
    {
      sessionPin := c.session(p);
      match keyFile {
        case Plain(x) =>
          PutKey(WrappedV2(c.seal(sessionPin, 2, nonce, x)));
          keydevUnlocked := true;
        case Raw(b) =>
          if |b| > 0 && b[0] == 1 {
            PutKey(WrappedV2(c.seal(sessionPin, 2, nonce, b[1..] + [stray])));
            keydevUnlocked := true;
          }
        case _ =>
      }
    }

    // encrypt_keydev_f1
    method EncryptKeydevF1(key: seq<byte>)
      requires Valid()
      modifies `keyFile, `maybe
      ensures Valid() && Now() == WriteKey(old(Now()), Unwrapped(c, key))
    {
      if keyFile != Plain(c.baseEncrypt(key)) {
        PutKey(Plain(c.baseEncrypt(key)));
      }
    }

    // load_pin_data into the RAM copy, and the decrement of its retry count
    method LoadDecremented(pinData: array<byte>) returns (ok: bool, len: nat)
      requires Valid() && pinFile.Some? && pinFile.value[0] % 0x80 > 0 && pinData.Length == PIN_DATA_LEN
      modifies pinData
      ensures ok == Parse(pinFile.value).Record?
      ensures ok ==>
                && PIN_LEGACY_DATA_LEN <= len <= PIN_DATA_LEN
                && var was := Parse(pinFile.value);
                && Parse(pinData[..len]) == was.(count := was.count - 1)
    {
      len := |pinFile.value|;
      ok := len == PIN_LEGACY_DATA_LEN || len == PIN_DATA_LEN;
      if ok {
        Copy(pinData, 0, pinFile.value);
        pinData[0] := pinData[0] - 1;
        assert pinData[..len] == pinFile.value[0 := pinData[0]];
      }
    }

    // The comparison of changePIN and getToken.
    method Matches(p: PinHash, pinData: array<byte>, len: nat) returns (ok: bool)
      requires Valid() && pinData.Length == PIN_DATA_LEN && PIN_LEGACY_DATA_LEN <= len <= PIN_DATA_LEN
      ensures ok == Verifies(c, Parse(pinData[..len]), p)
    {
      var verifier, off := c.verifier(p), 3;
      if len == PIN_LEGACY_DATA_LEN {
        verifier, off := c.legacyVerifier(p), 2;
      }
      assert pinData[..len][off..] == pinData[off..len];
      ok := verifier == pinData[off..len];
    }

    // The attempt of changePIN and getToken; the RAM copy of the file is in pinData[..len].
    method Attempt(p: Option<PinHash>, env: Env, pinData: array<byte>) returns (refused: Option<Status>, len: nat)
      requires Valid() && pinFile.Some? && pinFile.value[0] % 0x80 > 0 && pinData.Length == PIN_DATA_LEN
      modifies this, pinData
      ensures Valid()
      ensures refused.Some? ==> (Now(), Refused(refused.value)) == TryPin(c, old(Now()), p, env)
      ensures refused.None? ==>
                && PIN_LEGACY_DATA_LEN <= len <= PIN_DATA_LEN
                && (Now(), Correct(Parse(pinData[..len]))) == TryPin(c, old(Now()), p, env)
                && p.Some? && Verifies(c, Parse(pinData[..len]), p.value)
    {
      hide Parse, Verifies, Mismatch;
      var loaded;
      loaded, len := LoadDecremented(pinData);
      if !loaded {
        return Some(Processing), len;
      }
      var durable := PersistRetryCounter(pinData[..len], env.sync1);
      if !durable {
        return Some(Processing), len;
      }
      if p.None? {
        return Some(PinAuthInvalid), len;
      }
      refused := Compare(p.value, env, pinData, len);
    }

    method Compare(p: PinHash, env: Env, pinData: array<byte>, len: nat) returns (refused: Option<Status>)
      requires Valid() && pinData.Length == PIN_DATA_LEN && PIN_LEGACY_DATA_LEN <= len <= PIN_DATA_LEN
      modifies this, pinData
      ensures Valid()
      ensures refused.Some? ==>
                (Now(), Refused(refused.value)) == Compared(c, old(Now()), old(Parse(pinData[..len])), p, env)
      ensures refused.None? ==>
                && (Now(), Correct(Parse(pinData[..len]))) ==
                     Compared(c, old(Now()), old(Parse(pinData[..len])), p, env)
                && Verifies(c, Parse(pinData[..len]), p)
    {
      hide Parse, Verifies, Mismatch, Sized;
      guesses, maybe := guesses + 1, OneMore(maybe);
      var matches := Matches(p, pinData, len);
      if !matches {
        misses := misses + 1;
        var status := CountMismatch(env, pinData, len);
        return Some(status);
      }
      if needsPowerCycle {
        return Some(PinAuthBlocked);
      }
      refused := None;
    }

    // What a wrong PIN leads to; the lock bit is set in the RAM copy and persisted.
    method CountMismatch(env: Env, pinData: array<byte>, len: nat) returns (status: Status)
      requires Valid() && pinData.Length == PIN_DATA_LEN && PIN_LEGACY_DATA_LEN <= len <= PIN_DATA_LEN
      modifies this, pinData
      ensures Valid() && (Now(), Refused(status)) == Mismatch(old(Now()), old(Parse(pinData[..len])), env)
    {
      hide Parse, Sized;
      ParsedRetry(pinData[..len]);
      if pinData[0] % 0x80 == 0 {
        return PinBlocked;
      }
      if pinData[0] >= PIN_RETRY_POWER_CYCLE {
        needsPowerCycle := true;
        return PinAuthBlocked;
      }
      newPinMismatches := (newPinMismatches + 1) % 256;
      if newPinMismatches < 3 {
        return PinInvalid;
      }
      ghost var was := pinData[..len];
      MarkedRecord(was);
      pinData[0] := pinData[0] + PIN_RETRY_POWER_CYCLE;
      assert pinData[..len] == was[0 := was[0] + PIN_RETRY_POWER_CYCLE];
      var durable := PersistRetryCounter(pinData[..len], env.sync2);
      if !durable {
        return Processing;
      }
      needsPowerCycle := true;
      status := PinAuthBlocked;
    }

    // Format and verifier of the current format in the RAM copy.
    method PutVerifier(p: PinHash, pinData: array<byte>)
      requires Valid() && pinData.Length == PIN_DATA_LEN
      modifies pinData
      ensures pinData[..2] == old(pinData[..2]) && pinData[2] == 1 && pinData[3..] == c.verifier(p)
    {
      pinData[2] := 1;
      Copy(pinData, 3, c.verifier(p));
    }

    // The legacy branch after a successful comparison: current verifier, key out of its legacy wrapping.
    method UpgradeLegacy(p: PinHash, env: Env, pinData: array<byte>, len: nat) returns (ok: bool)
      requires Valid() && pinData.Length == PIN_DATA_LEN && PIN_LEGACY_DATA_LEN <= len <= PIN_DATA_LEN
      requires Verifies(c, Parse(pinData[..len]), p)
      modifies `keyFile, `maybe, `keydevUnlocked, `sessionPin, pinData
      ensures Valid() && (Now(), ok) == Upgrade(c, old(Now()), old(Parse(pinData[..len])), p, env)
      ensures pinData[..2] == old(pinData[..2]) && pinData[3..] == c.verifier(p)
    {
      hide OpenKey, Rewrapped, Unwrapped, WriteKey, Sized;
      if len == PIN_DATA_LEN {
        assert pinData[..len][3..] == pinData[3..];
        return true;
      }
      PutVerifier(p, pinData);
      sessionPin := c.legacySession(p);
      ghost var s := Now();
      var key := LoadKeydev(env.nonces(0));
      WriteKeyIgnoresUnlocked(s, Rewrapped(c, s.session, s.files.key, env.nonces(0)), keydevUnlocked);
      if key.None? {
        return false;
      }
      EncryptKeydevF1(key.value);
      ok := true;
    }

    // Put back a full retry count under the PIN that was just verified.
    method RestoreRetries(p: PinHash, pinData: array<byte>)
      requires Valid() && pinData.Length == PIN_DATA_LEN && pinData[3..] == c.verifier(p)
      modifies `pinFile, `maybe, `guesses, pinData
      ensures Valid() && Now() == WriteFresh(old(Now()), FreshRecord(c, p, old(pinData[1])))
      ensures pinFile.Some? && |pinFile.value| == PIN_DATA_LEN && pinFile.value[3..] == c.verifier(p)
    {
      pinData[0] := MAX_RETRIES;
      assert pinData[..][3..] == c.verifier(p);
      guesses := 0;
      PutPin(pinData[..]);
    }

    // getPinUvAuthToken after the comparison
    method FinishToken(p: PinHash, env: Env, pinData: array<byte>, len: nat) returns (status: Status)
      requires Valid() && pinData.Length == PIN_DATA_LEN && PIN_LEGACY_DATA_LEN <= len <= PIN_DATA_LEN
      requires Verifies(c, Parse(pinData[..len]), p)
      modifies this, pinData
      ensures Valid() && (Now(), status) == UseToken(c, old(Now()), old(Parse(pinData[..len])), p, env)
    {
      hide Upgrade, Parse, Verifies, WrapKey, WriteKey, GrantToken, Rewrapped, OpenKey, Sized;
      ParsedFields(pinData[..len]);
      var upgraded := UpgradeLegacy(p, env, pinData, len);
      assert pinData[..2][1] == pinData[1];
      if !upgraded {
        return PinInvalid;
      }
      CheckKeydevEncrypted(p, env.nonces(1), env.stray);
      var key := LoadKeydev(env.nonces(2));
      keydevUnlocked := key.Some?;
      if key.None? {
        return Processing;
      }
      status := FinishGrant(p, env.forceChange, pinData);
    }

    method FinishGrant(p: PinHash, forceChange: bool, pinData: array<byte>) returns (status: Status)
      requires Valid() && pinData.Length == PIN_DATA_LEN && pinData[3..] == c.verifier(p)
      modifies this, pinData
      ensures Valid() && (Now(), status) == GrantToken(c, old(Now()), p, old(pinData[1]), forceChange)
    {
      hide FreshRecord, Parse, Sized;
      newPinMismatches, misses := 0, 0;
      RestoreRetries(p, pinData);
      if forceChange {
        return PinInvalid;
      }
      needsPowerCycle := false;
      status := Success;
    }

    // getPinToken and getPinUvAuthTokenUsingPinWithPermissions
    method HandleGetToken(q: TokenRequest, env: Env) returns (status: Status)
      requires Valid()
      modifies this
      ensures Valid() && (Now(), status) == GetToken(c, old(Now()), q, env)
    {
      if !q.present {
        return MissingParameter;
      }
      if !q.permitted {
        return InvalidParameter;
      }
      if pinFile.None? {
        return PinNotSet;
      }
      if pinFile.value[0] % 0x80 == 0 {
        return PinBlocked;
      }
      if !q.ecdhOk {
        return InvalidParameter;
      }
      var pinData := new byte[PIN_DATA_LEN](_ => 0);
      var refused, len := Attempt(q.pin, env, pinData);
      if refused.Some? {
        return refused.value;
      }
      status := FinishToken(q.pin.value, env, pinData, len);
    }

    // changePIN after the comparison: the retry count comes back under the old PIN first, so a refused new
    // PIN or a power cut leaves the old one in force.
    method ReplaceVerifiedPin(p: PinHash, n: NewPin, env: Env, pinData: array<byte>, len: nat) returns (status: Status)
      requires Valid() && pinData.Length == PIN_DATA_LEN && PIN_LEGACY_DATA_LEN <= len <= PIN_DATA_LEN
      requires Verifies(c, Parse(pinData[..len]), p) && n.codePoints < 256
      modifies this, pinData
      ensures Valid() && (Now(), status) == ReplacePin(c, old(Now()), old(Parse(pinData[..len])), p, n, env)
    {
      hide Upgrade, Parse, Verifies, WrapKey, WriteKey, FreshRecord, WriteFresh, Install, Sized;
      ParsedFields(pinData[..len]);
      var upgraded := UpgradeLegacy(p, env, pinData, len);
      assert pinData[..2][1] == pinData[1];
      if !upgraded {
        return PinInvalid;
      }
      RestoreRetries(p, pinData);
      CheckKeydevEncrypted(p, env.nonces(1), env.stray);
      newPinMismatches, misses := 0, 0;
      if !n.decrypted {
        return PinAuthInvalid;
      }
      if !n.accepted {
        return PolicyViolation;
      }
      status := InstallPin(p, n, env, pinData);
    }

    method InstallPin(p: PinHash, n: NewPin, env: Env, pinData: array<byte>) returns (status: Status)
      requires Valid() && pinData.Length == PIN_DATA_LEN && n.codePoints < 256
      requires pinFile.Some? && |pinFile.value| == PIN_DATA_LEN && pinFile.value[3..] == c.verifier(p)
      modifies this, pinData
      ensures Valid() && (Now(), status) == Install(c, old(Now()), p, n, env)
    {
      hide WrapKey, WriteKey, Rewrapped, OpenKey, Unwrapped, Parse, StorePin, Sized;
      WriteKeyKeepsUnlocked(Now(), Rewrapped(c, sessionPin, keyFile, env.nonces(2)));
      var key := LoadKeydev(env.nonces(2));
      if key.None? {
        return PinInvalid;
      }
      EncryptKeydevF1(key.value);
      CheckKeydevEncrypted(n.hash, env.nonces(3), env.stray);
      status := FinishInstall(p, n, env.forceChange, pinData);
    }

    method FinishInstall(p: PinHash, n: NewPin, forceChange: bool, pinData: array<byte>) returns (status: Status)
      requires Valid() && pinData.Length == PIN_DATA_LEN && n.codePoints < 256
      requires pinFile.Some? && |pinFile.value| == PIN_DATA_LEN && pinFile.value[3..] == c.verifier(p)
      modifies this, pinData
      ensures Valid() && (Now(), status) == StorePin(c, old(Now()), p, n, forceChange)
    {
      hide FreshRecord, Parse, Sized;
      FillRecord(n, pinData);
      if forceChange && pinData[3..] == pinFile.value[3..] {
        return PolicyViolation;
      }
      guesses := 0;
      PutPin(pinData[..]);
      needsPowerCycle := false;
      status := Success;
    }

    method FillRecord(n: NewPin, pinData: array<byte>)
      requires Valid() && pinData.Length == PIN_DATA_LEN && n.codePoints < 256
      modifies pinData
      ensures Parse(pinData[..]) == FreshRecord(c, n.hash, n.codePoints) && pinData[3..] == c.verifier(n.hash)
    {
      pinData[0] := MAX_RETRIES;
      pinData[1] := n.codePoints;
      PutVerifier(n.hash, pinData);
      assert pinData[0] == pinData[..2][0] && pinData[1] == pinData[..2][1];
      assert pinData[..][3..] == c.verifier(n.hash);
    }

    // changePIN
    method HandleChangePin(q: ChangeRequest, env: Env) returns (status: Status)
      requires Valid() && q.newPin.codePoints < 256
      modifies this
      ensures Valid() && (Now(), status) == ChangePin(c, old(Now()), q, env)
    {
      if !q.present {
        return MissingParameter;
      }
      if pinFile.None? {
        return PinNotSet;
      }
      ParsedCount(pinFile.value);
      if pinFile.value[0] % 0x80 == 0 {
        return PinBlocked;
      }
      if needsPowerCycle {
        return PinAuthBlocked;
      }
      if !q.lengthsOk || !q.ecdhOk {
        return InvalidParameter;
      }
      if !q.authOk {
        return PinAuthInvalid;
      }
      var pinData := new byte[PIN_DATA_LEN](_ => 0);
      var refused, len := Attempt(q.pin, env, pinData);
      if refused.Some? {
        return refused.value;
      }
      status := ReplaceVerifiedPin(q.pin.value, q.newPin, env, pinData, len);
    }

    // setPIN
    method HandleSetPin(q: SetRequest, env: Env) returns (status: Status)
      requires Valid() && q.newPin.codePoints < 256
      modifies this
      ensures Valid() && (Now(), status) == SetPin(c, old(Now()), q, env)
    {
      hide WrapKey, Parse, FreshRecord, Sized;
      if !q.present {
        return MissingParameter;
      }
      if pinFile.Some? {
        return NotAllowed;
      }
      if !q.lengthsOk || !q.ecdhOk {
        return InvalidParameter;
      }
      if !q.authOk || !q.newPin.decrypted {
        return PinAuthInvalid;
      }
      if !q.newPin.accepted {
        return PolicyViolation;
      }
      var pinData := new byte[PIN_DATA_LEN](_ => 0);
      FillRecord(q.newPin, pinData);
      guesses := 0;
      PutPin(pinData[..]);
      CheckKeydevEncrypted(q.newPin.hash, env.nonces(0), env.stray);
      newPinMismatches, misses := 0, 0;
      needsPowerCycle := false;
      status := Success;
    }

    // init_fido
    method InitFido()
      requires Valid()
      modifies `needsPowerCycle, `keydevUnlocked
      ensures Valid() && Now() == Step(c, old(Now()), Event.InitFido).0
    {
      keydevUnlocked := false;
      needsPowerCycle := false;
    }
  }
}
