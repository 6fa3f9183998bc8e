/** The device key through every change of PIN and of its own file format
    (src/fido/cbor_client_pin.c and src/fido/fido.c), and exactly when it is lost. */
module DeviceKey {
  import opened Bytes
  import opened ClientPin
  import opened ClientPinProofs

  // Whoever can present a PIN that the stored record accepts gets `key` from load_keydev
  // under the session of that PIN; without a PIN the key file opens by itself.
  ghost predicate KeyOk(c: Crypto, f: Files, key: seq<byte>) {
    match f.pin
    case None => !IsWrapped(f.key) && forall session: seq<byte> :: OpenKey(c, session, f.key) == Some(key)
    case Some(rec) => rec.Record? ==> forall p: PinHash | Verifies(c, rec, p) ::
      OpenKey(c, SessionFor(c, rec, p), f.key) == Some(key)
  }

  // For a PIN that the record accepts, that is one question.
  lemma VerifiedOkIff(c: Crypto, f: Files, rec: PinRecord, p: PinHash, key: seq<byte>)
    requires Lawful(c) && rec.Record? && Verifies(c, rec, p) && f.pin == Some(rec)
    ensures KeyOk(c, f, key) <==> OpenKey(c, SessionFor(c, rec, p), f.key) == Some(key)
  {
  }

  lemma FreshOkIff(c: Crypto, f: Files, p: PinHash, codePoints: nat, key: seq<byte>)
    requires Lawful(c) && f.pin == Some(FreshRecord(c, p, codePoints))
    ensures KeyOk(c, f, key) <==> OpenKey(c, c.session(p), f.key) == Some(key)
  {
    assert Verifies(c, FreshRecord(c, p, codePoints), p);
    VerifiedOkIff(c, f, FreshRecord(c, p, codePoints), p, key);
  }

  // ---------------------------------------------------------------- one check of the key file

  // Not a 32-byte legacy file that looks like format 0x01.
  predicate Unambiguous(file: KeyFile) {
    file.Raw? ==> file.bytes == [] || file.bytes[0] != 1
  }

  predicate LegacyPin(f: Files) {
    f.pin.Some? && f.pin.value.Record? && f.pin.value.legacy
  }

  // What the key becomes when check_keydev_encrypted meets the file. Under a legacy PIN record the file is
  // written as format 0x01 before, so it is never mistaken.
  function LeftKey(c: Crypto, legacy: bool, file: KeyFile, stray: byte, key: seq<byte>): seq<byte> {
    if legacy || Unambiguous(file) then key else c.baseDecrypt(file.bytes[1..] + [stray])
  }

  predicate KeptBy(c: Crypto, legacy: bool, file: KeyFile, stray: byte, key: seq<byte>) {
    legacy || Unambiguous(file) || c.baseDecrypt(file.bytes[1..] + [stray]) == key
  }

  // The key file opens under the session of p, and cannot be mistaken.
  ghost predicate OpensFor(c: Crypto, s: State, p: PinHash, key: seq<byte>) {
    OpenKey(c, c.session(p), s.files.key) == Some(key) && Unambiguous(s.files.key)
  }

  lemma UpgradeKeepsKey(c: Crypto, s: State, rec: PinRecord, p: PinHash, env: Env, key: seq<byte>)
    requires Lawful(c) && rec.Record? && Verifies(c, rec, p)
    requires OpenKey(c, SessionFor(c, rec, p), s.files.key) == Some(key)
    ensures var (t, ok) := Upgrade(c, s, rec, p, env);
            && ok && OpenKey(c, c.session(p), t.files.key) == Some(key)
            && t.files.key == if rec.legacy then Unwrapped(c, key) else s.files.key
  {
  }

  lemma WrapKeyLeaves(c: Crypto, s: State, p: PinHash, nonce: nat, stray: byte, key: seq<byte>)
    requires Lawful(c) && OpenKey(c, c.session(p), s.files.key) == Some(key)
    ensures var t := WrapKey(c, s, p, nonce, stray);
            OpensFor(c, t, p, LeftKey(c, false, s.files.key, stray, key)) && t.session == c.session(p)
  {
  }

  lemma RewrapKeepsKey(c: Crypto, session: seq<byte>, file: KeyFile, nonce: nat, key: seq<byte>)
    requires Lawful(c) && OpenKey(c, session, file) == Some(key) && Unambiguous(file)
    ensures OpenKey(c, session, Rewrapped(c, session, file, nonce)) == Some(key)
            && Unambiguous(Rewrapped(c, session, file, nonce))
  {
  }

  lemma UnwrapKeepsKey(c: Crypto, session: seq<byte>, key: seq<byte>)
    requires Lawful(c)
    ensures OpenKey(c, session, Unwrapped(c, key)) == Some(key) && Unambiguous(Unwrapped(c, key))
  {
  }

  // ---------------------------------------------------------------- commands

  // A verified PIN always gets its token request past the device key. It keeps the key if and only if the
  // file is not mistaken or the mistake happens to decrypt to the key, and no later check can mistake it.
  lemma UseTokenKeepsKey(c: Crypto, s: State, rec: PinRecord, p: PinHash, env: Env, key: seq<byte>)
    requires Lawful(c) && rec.Record? && Verifies(c, rec, p)
    requires OpenKey(c, SessionFor(c, rec, p), s.files.key) == Some(key)
    ensures var (t, status) := UseToken(c, s, rec, p, env);
            && (KeyOk(c, t.files, key) <==> KeptBy(c, rec.legacy, s.files.key, env.stray, key))
            && KeyOk(c, t.files, LeftKey(c, rec.legacy, s.files.key, env.stray, key))
            && t.files.pin == Some(FreshRecord(c, p, rec.codePoints)) && Unambiguous(t.files.key)
            && t.unlocked && t.session == c.session(p) && (status == Success <==> !env.forceChange)
  {
    hide KeyOk, Upgrade, Wrapped, FreshRecord, Verifies, Unwrapped;
    UpgradeKeepsKey(c, s, rec, p, env, key);
    UnwrapKeepsKey(c, c.session(p), key);
    var s1 := Upgrade(c, s, rec, p, env).0;
    WrapKeyLeaves(c, s1, p, env.nonces(1), env.stray, key);
    var s2 := WrapKey(c, s1, p, env.nonces(1), env.stray);
    var left := LeftKey(c, rec.legacy, s.files.key, env.stray, key);
    RewrapKeepsKey(c, c.session(p), s2.files.key, env.nonces(2), left);
    var t := UseToken(c, s, rec, p, env).0;
    FreshOkIff(c, t.files, p, rec.codePoints, left);
    FreshOkIff(c, t.files, p, rec.codePoints, key);
  }

  // The same for changePIN, which checks the file under the old PIN and then moves the key to the new one.
  lemma ReplacePinKeepsKey(c: Crypto, s: State, rec: PinRecord, p: PinHash, n: NewPin, env: Env, key: seq<byte>)
    requires Lawful(c) && rec.Record? && Verifies(c, rec, p)
    requires OpenKey(c, SessionFor(c, rec, p), s.files.key) == Some(key)
    ensures var (t, status) := ReplacePin(c, s, rec, p, n, env);
            && (KeyOk(c, t.files, key) <==> KeptBy(c, rec.legacy, s.files.key, env.stray, key))
            && KeyOk(c, t.files, LeftKey(c, rec.legacy, s.files.key, env.stray, key))
            && t.files.pin == Some(ReplacedRecord(c, rec, p, n, env)) && Unambiguous(t.files.key)
            && (status == Success <==> Installs(c, p, n, env))
  {
    hide KeyOk, Upgrade, Wrapped, FreshRecord, Verifies, Unwrapped, OpenKey, Unambiguous, Install;
    UpgradeKeepsKey(c, s, rec, p, env, key);
    UnwrapKeepsKey(c, c.session(p), key);
    var s1 := Upgrade(c, s, rec, p, env).0;
    var s2 := Restored(c, s1, p, rec.codePoints, env);
    WrapKeyLeaves(c, WriteFresh(s1, FreshRecord(c, p, rec.codePoints)), p, env.nonces(1), env.stray, key);
    var left := LeftKey(c, rec.legacy, s.files.key, env.stray, key);
    assert OpensFor(c, s2, p, left);
    FreshOkIff(c, s2.files, p, rec.codePoints, left);
    FreshOkIff(c, s2.files, p, rec.codePoints, key);
    if n.decrypted && n.accepted {
      InstallKeepsKey(c, s2, p, rec.codePoints, n, env, left);
      var t := Install(c, s2, p, n, env).0;
      if Installs(c, p, n, env) {
        FreshOkIff(c, t.files, n.hash, n.codePoints, left);
        FreshOkIff(c, t.files, n.hash, n.codePoints, key);
      } else {
        FreshOkIff(c, t.files, p, rec.codePoints, left);
        FreshOkIff(c, t.files, p, rec.codePoints, key);
      }
    }
  }

  predicate Installs(c: Crypto, p: PinHash, n: NewPin, env: Env) {
    n.decrypted && n.accepted && !(env.forceChange && c.verifier(n.hash) == c.verifier(p))
  }

  function ReplacedRecord(c: Crypto, rec: PinRecord, p: PinHash, n: NewPin, env: Env): PinRecord
    requires rec.Record?
  {
    if Installs(c, p, n, env) then FreshRecord(c, n.hash, n.codePoints) else FreshRecord(c, p, rec.codePoints)
  }

  lemma InstallKeepsKey(c: Crypto, s: State, p: PinHash, codePoints: nat, n: NewPin, env: Env, key: seq<byte>)
    requires Lawful(c) && OpensFor(c, s, p, key) && s.session == c.session(p)
    requires s.files.pin == Some(FreshRecord(c, p, codePoints)) && n.decrypted && n.accepted
    ensures var (t, status) := Install(c, s, p, n, env);
            && KeyOk(c, t.files, key) && Unambiguous(t.files.key) && (status == Success <==> Installs(c, p, n, env))
            && t.files.pin == Some(if Installs(c, p, n, env) then FreshRecord(c, n.hash, n.codePoints)
                                   else FreshRecord(c, p, codePoints))
  {
    hide KeyOk, Wrapped, FreshRecord, Unwrapped;
    UnwrapKeepsKey(c, c.session(n.hash), key);
    var s1 := WriteKey(s, Rewrapped(c, s.session, s.files.key, env.nonces(2)));
    var s1' := s1.(unlocked := s1.unlocked || IsWrapped(s.files.key));
    var s2 := WriteKey(s1', Unwrapped(c, key));
    assert s2.files.key == Unwrapped(c, key);
    WrapKeyLeaves(c, s2, n.hash, env.nonces(3), env.stray, key);
    var t := Install(c, s, p, n, env).0;
    if Installs(c, p, n, env) {
      FreshOkIff(c, t.files, n.hash, n.codePoints, key);
    } else {
      assert c.session(n.hash) == c.session(p);
      FreshOkIff(c, t.files, p, codePoints, key);
    }
  }

  lemma SetPinKeepsKey(c: Crypto, s: State, q: SetRequest, env: Env, key: seq<byte>)
    requires Lawful(c) && KeyOk(c, s.files, key)
    ensures var (t, status) := SetPin(c, s, q, env);
            && (status != Success ==> t == s)
            && (status == Success ==>
                  && (KeyOk(c, t.files, key) <==> KeptBy(c, false, s.files.key, env.stray, key))
                  && KeyOk(c, t.files, LeftKey(c, false, s.files.key, env.stray, key)) && Unambiguous(t.files.key)
                  && t.files.pin == Some(FreshRecord(c, q.newPin.hash, q.newPin.codePoints)))
  {
    hide Wrapped, FreshRecord, OpenKey, Unambiguous, Verifies;
    var (t, status) := SetPin(c, s, q, env);
    if status == Success {
      var p := q.newPin.hash;
      var s1 := WriteFresh(s, FreshRecord(c, p, q.newPin.codePoints));
      assert OpenKey(c, c.session(p), s1.files.key) == Some(key);
      WrapKeyLeaves(c, s1, p, env.nonces(0), env.stray, key);
      FreshOkIff(c, t.files, p, q.newPin.codePoints, LeftKey(c, false, s.files.key, env.stray, key));
      FreshOkIff(c, t.files, p, q.newPin.codePoints, key);
    }
  }

  // ---------------------------------------------------------------- steps

  // An attempt leaves the key file alone and, in the PIN record, what decides who verifies.
  lemma TryPinKeepsKey(c: Crypto, s: State, p: Option<PinHash>, env: Env, key: seq<byte>)
    requires KeyOk(c, s.files, key) && s.files.pin.Some? && s.files.pin.value.count > 0
    ensures KeyOk(c, TryPin(c, s, p, env).0.files, key) && TryPin(c, s, p, env).0.files.key == s.files.key
    ensures LegacyPin(TryPin(c, s, p, env).0.files) == LegacyPin(s.files)
    ensures SomeVerifies(c, s.files) ==> SomeVerifies(c, TryPin(c, s, p, env).0.files)
  {
    hide TryPin, KeyOk, SomeVerifies;
    var stored := s.files.pin.value;
    TryPinFiles(c, s, p, env);
    if stored.Record? {
      SameVerifierOk(c, s.files, stored.(count := stored.count - 1), key);
      SameVerifierOk(c, s.files, stored.(count := stored.count - 1, marker := true), key);
    }
  }

  ghost predicate SomeVerifies(c: Crypto, f: Files) {
    f.pin.Some? && f.pin.value.Record? && exists p: PinHash :: Verifies(c, f.pin.value, p)
  }

  lemma FreshVerifies(c: Crypto, f: Files, p: PinHash, codePoints: nat)
    requires f.pin == Some(FreshRecord(c, p, codePoints))
    ensures SomeVerifies(c, f) && !LegacyPin(f)
  {
    assert Verifies(c, f.pin.value, p);
  }

  // No two keys are right at once when some PIN verifies.
  lemma OneKey(c: Crypto, f: Files, key: seq<byte>, other: seq<byte>)
    requires KeyOk(c, f, key) && SomeVerifies(c, f)
    ensures KeyOk(c, f, other) <==> other == key
  {
  }

  lemma SameVerifierOk(c: Crypto, f: Files, rec: PinRecord, key: seq<byte>)
    requires KeyOk(c, f, key) && f.pin.Some? && f.pin.value.Record? && rec.Record?
    requires rec.verifier == f.pin.value.verifier && rec.legacy == f.pin.value.legacy
    ensures KeyOk(c, f.(pin := Some(rec)), key)
    ensures SomeVerifies(c, f) ==> SomeVerifies(c, f.(pin := Some(rec)))
  {
    forall p: PinHash | Verifies(c, rec, p)
      ensures OpenKey(c, SessionFor(c, rec, p), f.key) == Some(key)
    {
      assert Verifies(c, f.pin.value, p);
    }
    if SomeVerifies(c, f) {
      var p: PinHash :| Verifies(c, f.pin.value, p);
      assert Verifies(c, rec, p);
    }
  }

  // The PIN attempt of a command that gets as far as a verified PIN.
  function Attempted(c: Crypto, s: State, e: Event): (r: Option<(State, PinRecord, PinHash)>)
    ensures r.Some? ==> (e.GetTokenCmd? || e.ChangePinCmd?) && r.value.1.Record?
  {
    if s.files.pin.None? || s.files.pin.value.count == 0 then None
    else
      match e
      case GetTokenCmd(q, env) =>
        var (s1, attempt) := TryPin(c, s, q.pin, env);
        if q.present && q.permitted && q.ecdhOk && attempt.Correct? then Some((s1, attempt.rec, q.pin.value)) else None
      case ChangePinCmd(q, env) =>
        var (s1, attempt) := TryPin(c, s, q.pin, env);
        if q.present && !s.locked && q.lengthsOk && q.ecdhOk && q.authOk && attempt.Correct?
        then Some((s1, attempt.rec, q.pin.value)) else None
      case _ => None
  }

  // The commands that reach check_keydev_encrypted.
  predicate Checks(c: Crypto, s: State, e: Event) {
    Attempted(c, s, e).Some? || (e.SetPinCmd? && SetPin(c, s, e.request, e.env).1 == Success)
  }

  lemma AttemptedKeepsKey(c: Crypto, s: State, e: Event, key: seq<byte>)
    requires KeyOk(c, s.files, key) && Attempted(c, s, e).Some?
    ensures var (s1, rec, p) := Attempted(c, s, e).value;
            && s1.files.pin == Some(rec) && Verifies(c, rec, p) && rec.legacy == LegacyPin(s.files)
            && s1.files.key == s.files.key && KeyOk(c, s1.files, key)
            && OpenKey(c, SessionFor(c, rec, p), s1.files.key) == Some(key)
            && Step(c, s, e) == if e.GetTokenCmd? then UseToken(c, s1, rec, p, e.env)
                                else ReplacePin(c, s1, rec, p, e.change.newPin, e.env)
  {
    hide TryPin, UseToken, ReplacePin, OpenKey;
    var p := if e.GetTokenCmd? then e.ask.pin else e.change.pin;
    TryPinKeepsKey(c, s, p, e.env, key);
    TryPinCorrect(c, s, p, e.env);
  }

  // Every command that checks the key file keeps the key exactly when the file is not mistaken for what it
  // is not, and leaves a file that never will be; every other command keeps it.
  lemma StepKeepsKey(c: Crypto, s: State, e: Event, key: seq<byte>)
    requires Lawful(c) && KeyOk(c, s.files, key)
    requires !e.PowerLoss? && !e.AuthenticatorReset?
    ensures var t := Step(c, s, e).0;
            if Checks(c, s, e) then
              && (KeyOk(c, t.files, key) <==> KeptBy(c, LegacyPin(s.files), s.files.key, e.env.stray, key))
              && KeyOk(c, t.files, LeftKey(c, LegacyPin(s.files), s.files.key, e.env.stray, key))
              && Unambiguous(t.files.key) && SomeVerifies(c, t.files) && !LegacyPin(t.files)
            else
              && KeyOk(c, t.files, key) && t.files.key == s.files.key && LegacyPin(t.files) == LegacyPin(s.files)
              && (SomeVerifies(c, s.files) ==> SomeVerifies(c, t.files))
  {
    hide KeyOk, TryPin, UseToken, ReplacePin, SetPin, OpenKey, Unambiguous, FreshRecord, SomeVerifies, Verifies;
    var t := Step(c, s, e).0;
    if e.SetPinCmd? {
      SetPinKeepsKey(c, s, e.request, e.env, key);
      if Checks(c, s, e) {
        FreshVerifies(c, t.files, e.request.newPin.hash, e.request.newPin.codePoints);
        NoPin(c, s, e.request, e.env);
      }
    } else if Attempted(c, s, e).Some? {
      AttemptedKeepsKey(c, s, e, key);
      var (s1, rec, p) := Attempted(c, s, e).value;
      if e.GetTokenCmd? {
        UseTokenKeepsKey(c, s1, rec, p, e.env, key);
        FreshVerifies(c, t.files, p, rec.codePoints);
      } else {
        ReplacePinKeepsKey(c, s1, rec, p, e.change.newPin, e.env, key);
        ReplacedVerifies(c, t.files, rec, p, e.change.newPin, e.env);
      }
    } else if (e.GetTokenCmd? || e.ChangePinCmd?) && s.files.pin.Some? && s.files.pin.value.count > 0 {
      TryPinKeepsKey(c, s, if e.GetTokenCmd? then e.ask.pin else e.change.pin, e.env, key);
    }
  }

  lemma NoPin(c: Crypto, s: State, q: SetRequest, env: Env)
    requires SetPin(c, s, q, env).1 == Success
    ensures s.files.pin.None?
  {
  }

  lemma ReplacedVerifies(c: Crypto, f: Files, rec: PinRecord, p: PinHash, n: NewPin, env: Env)
    requires rec.Record? && f.pin == Some(ReplacedRecord(c, rec, p, n, env))
    ensures SomeVerifies(c, f) && !LegacyPin(f)
  {
    if Installs(c, p, n, env) {
      FreshVerifies(c, f, n.hash, n.codePoints);
    } else {
      FreshVerifies(c, f, p, rec.codePoints);
    }
  }

  // ---------------------------------------------------------------- runs

  // The byte behind the key file when the first command of the run checks it.
  function FirstCheck(c: Crypto, s: State, events: seq<Event>): Option<byte>
    requires forall i | 0 <= i < |events| :: !events[i].PowerLoss? && !events[i].AuthenticatorReset?
    decreases |events|
  {
    if events == [] then None
    else if Checks(c, s, events[0]) then Some(events[0].env.stray)
    else FirstCheck(c, Step(c, s, events[0]).0, events[1..])
  }

  // Across every run of setPIN, changePIN and getToken, through all key-file formats and the upgrade of a
  // legacy PIN record, the accepted PIN keeps opening the same device key, if and only if the first check
  // of the key file does not mistake it.
  lemma {:induction false} DeviceKeySurvives(c: Crypto, s: State, events: seq<Event>, key: seq<byte>)
    requires Lawful(c) && KeyOk(c, s.files, key)
    requires forall i | 0 <= i < |events| :: !events[i].PowerLoss? && !events[i].AuthenticatorReset?
    ensures var check := FirstCheck(c, s, events);
            KeyOk(c, Run(c, s, events).files, key) <==>
              check.None? || KeptBy(c, LegacyPin(s.files), s.files.key, check.value, key)
    decreases |events|
  {
    hide KeyOk, Step, Unambiguous, SomeVerifies;
    if events != [] {
      StepKeepsKey(c, s, events[0], key);
      var t := Step(c, s, events[0]).0;
      if Checks(c, s, events[0]) {
        var left := LeftKey(c, LegacyPin(s.files), s.files.key, events[0].env.stray, key);
        CheckedKeySurvives(c, t, events[1..], left);
        OneKey(c, Run(c, t, events[1..]).files, left, key);
      } else {
        DeviceKeySurvives(c, t, events[1..], key);
      }
    }
  }

  // After one check nothing is in doubt any more.
  lemma {:induction false} CheckedKeySurvives(c: Crypto, s: State, events: seq<Event>, key: seq<byte>)
    requires Lawful(c) && KeyOk(c, s.files, key) && Unambiguous(s.files.key) && SomeVerifies(c, s.files)
    requires forall i | 0 <= i < |events| :: !events[i].PowerLoss? && !events[i].AuthenticatorReset?
    ensures KeyOk(c, Run(c, s, events).files, key) && SomeVerifies(c, Run(c, s, events).files)
    decreases |events|
  {
    hide KeyOk, Step, Checks, SomeVerifies;
    if events != [] {
      StepKeepsKey(c, s, events[0], key);
      CheckedKeySurvives(c, Step(c, s, events[0]).0, events[1..], key);
    }
  }

  // ---------------------------------------------------------------- where it fails

  // Crypto without any cryptography, to show that a loss does not depend on it.
  const TRANSPARENT: Crypto := Crypto(
    p => p, p => p, p => p, p => p,
    (k, v, n, x) => x, (k, v, x) => Some(x), x => x, x => x, x => x)

  // A 32-byte legacy key file that starts with 0x01 is mistaken for format 0x01 when the
  // first PIN is set: one byte of the key is dropped and a foreign one appended.
  lemma AmbiguousFileLosesKey(p: PinHash, tail: seq<byte>, env: Env)
    requires |tail| == 31 && tail[0] != 1
    ensures var c, files := TRANSPARENT, Files(None, Raw([1] + tail));
            var s := State(files, [Candidate(files, 0)], false, 0, [], false, 0, 0);
            var (t, status) := SetPin(c, s, SetRequest(true, true, true, true, NewPin(true, true, p, 4)), env);
            && Lawful(c) && KeyOk(c, s.files, [1] + tail) && status == Success
            && !KeyOk(c, t.files, [1] + tail)
            && OpenKey(c, c.session(p), t.files.key) == Some(tail + [env.stray])
  {
    assert ([1] + tail)[1..] == tail;
    assert (tail + [env.stray])[0] != ([1] + tail)[0];
    var files := Files(None, Raw([1] + tail));
    var s := State(files, [Candidate(files, 0)], false, 0, [], false, 0, 0);
    var t := SetPin(TRANSPARENT, s, SetRequest(true, true, true, true, NewPin(true, true, p, 4)), env).0;
    assert Verifies(TRANSPARENT, t.files.pin.value, p);
  }
}
