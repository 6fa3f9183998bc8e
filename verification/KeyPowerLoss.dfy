/** The device key across power losses (src/fido/cbor_client_pin.c and src/fido/fido.c): exactly when every
    content the flash may be left in still gives the key to the accepted PIN. */
module KeyPowerLoss {
  import opened Bytes
  import opened ClientPin
  import opened ClientPinProofs
  import opened DeviceKey

  ghost predicate AllOk(c: Crypto, s: State, key: seq<byte>) {
    forall i | 0 <= i < |s.maybe| :: KeyOk(c, s.maybe[i].files, key)
  }

  // What is visible is one of the contents the flash may be left in.
  ghost predicate Held(s: State) {
    exists i :: 0 <= i < |s.maybe| && s.maybe[i].files == s.files
  }

  ghost predicate Durable(c: Crypto, s: State, key: seq<byte>) {
    AllOk(c, s, key) && Held(s)
  }

  lemma NowIsOk(c: Crypto, s: State, key: seq<byte>)
    requires Durable(c, s, key)
    ensures KeyOk(c, s.files, key)
  {
  }

  lemma VerifiedKey(c: Crypto, s: State, rec: PinRecord, p: PinHash, key: seq<byte>)
    requires Lawful(c) && Durable(c, s, key) && s.files.pin == Some(rec) && rec.Record? && Verifies(c, rec, p)
    ensures OpenKey(c, SessionFor(c, rec, p), s.files.key) == Some(key)
  {
    NowIsOk(c, s, key);
    VerifiedOkIff(c, s.files, rec, p, key);
  }

  lemma DurableHeld(c: Crypto, s: State, key: seq<byte>)
    requires Durable(c, s, key)
    ensures Held(s)
  {
  }

  // ---------------------------------------------------------------- single writes

  lemma WriteFilesDurableIff(c: Crypto, s: State, f: Files, key: seq<byte>)
    requires Held(s)
    ensures Held(WriteFiles(s, f))
    ensures Durable(c, WriteFiles(s, f), key) <==> Durable(c, s, key) && KeyOk(c, f, key)
  {
    var t := WriteFiles(s, f);
    assert t.maybe[|s.maybe|].files == f;
    if AllOk(c, t, key) {
      forall i | 0 <= i < |s.maybe|
        ensures KeyOk(c, s.maybe[i].files, key)
      {
        assert t.maybe[i] == s.maybe[i];
      }
    }
  }

  lemma WriteKeyDurableIff(c: Crypto, s: State, file: KeyFile, key: seq<byte>)
    requires Held(s)
    ensures Held(WriteKey(s, file))
    ensures Durable(c, WriteKey(s, file), key) <==> Durable(c, s, key) && KeyOk(c, s.files.(key := file), key)
  {
    hide KeyOk, AllOk, Held, Durable;
    WriteFilesDurableIff(c, s, s.files.(key := file), key);
    if file == s.files.key {
      assert s.files.(key := file) == s.files;
      if Durable(c, s, key) {
        NowIsOk(c, s, key);
      }
    }
  }

  lemma WriteFreshDurableIff(c: Crypto, s: State, rec: PinRecord, key: seq<byte>)
    requires Held(s)
    ensures Held(WriteFresh(s, rec))
    ensures Durable(c, WriteFresh(s, rec), key) <==> Durable(c, s, key) && KeyOk(c, s.files.(pin := Some(rec)), key)
  {
    hide KeyOk, AllOk, Held, Durable;
    SameFlash(c, s, s.(guesses := 0), key);
    WriteFilesDurableIff(c, s.(guesses := 0), s.files.(pin := Some(rec)), key);
  }

  lemma WrapKeyDurableIff(c: Crypto, s: State, p: PinHash, nonce: nat, stray: byte, key: seq<byte>)
    requires Held(s)
    ensures var t := WrapKey(c, s, p, nonce, stray);
            && Held(t) && t.files == s.files.(key := Wrapped(c, c.session(p), s.files.key, nonce, stray))
            && (Durable(c, t, key) <==> Durable(c, s, key) && KeyOk(c, t.files, key))
  {
    hide KeyOk, AllOk, Held, Durable, Wrapped;
    var file := Wrapped(c, c.session(p), s.files.key, nonce, stray);
    var s' := s.(session := c.session(p), unlocked := s.unlocked || file != s.files.key);
    SameFlash(c, s, s', key);
    WriteKeyDurableIff(c, s', file, key);
  }

  // RAM does not matter.
  lemma SameFlash(c: Crypto, s: State, t: State, key: seq<byte>)
    requires |s.maybe| == |t.maybe| && forall i | 0 <= i < |s.maybe| :: s.maybe[i].files == t.maybe[i].files
    requires s.files == t.files
    ensures Held(s) <==> Held(t)
    ensures Durable(c, s, key) <==> Durable(c, t, key)
  {
  }

  // ---------------------------------------------------------------- attempts

  lemma PersistDurable(c: Crypto, s: State, rec: PinRecord, sync: Sync, key: seq<byte>)
    requires Durable(c, s, key) && KeyOk(c, s.files.(pin := Some(rec)), key)
    ensures Durable(c, Persist(s, rec, sync).0, key)
  {
    hide KeyOk;
    WriteFilesDurableIff(c, s, s.files.(pin := Some(rec)), key);
    if sync.Synced? {
      assert Persist(s, rec, sync).0.maybe[0].files == s.files.(pin := Some(rec));
    }
  }

  lemma MismatchKeepsDurable(c: Crypto, s: State, rec: PinRecord, env: Env, key: seq<byte>)
    requires Durable(c, s, key) && rec.Record? && KeyOk(c, s.files.(pin := Some(rec.(marker := true))), key)
    ensures Durable(c, Mismatch(s, rec, env).0, key)
  {
    hide KeyOk, Durable, Persist;
    var s1 := s.(mismatches := (s.mismatches + 1) % 256);
    SameFlash(c, s, s1, key);
    SameFlash(c, s, s.(locked := true), key);
    PersistDurable(c, s1, rec.(marker := true), env.sync2, key);
    var s2 := Persist(s1, rec.(marker := true), env.sync2).0;
    SameFlash(c, s2, s2.(locked := true), key);
  }

  lemma AttemptKeepsDurable(c: Crypto, s: State, p: Option<PinHash>, env: Env, key: seq<byte>)
    requires Durable(c, s, key) && s.files.pin.Some? && s.files.pin.value.count > 0
    ensures Durable(c, TryPin(c, s, p, env).0, key)
  {
    hide KeyOk, Durable, Mismatch, Verifies;
    NowIsOk(c, s, key);
    var stored := s.files.pin.value;
    if stored.Record? {
      var rec := stored.(count := stored.count - 1);
      SameVerifierOk(c, s.files, rec, key);
      SameVerifierOk(c, s.files, rec.(marker := true), key);
      PersistDurable(c, s, rec, env.sync1, key);
      var s1 := Persist(s, rec, env.sync1).0;
      var s2 := CountGuess(s1);
      SameFlash(c, s1, s2, key);
      SameFlash(c, s1, s2.(misses := s2.misses + 1), key);
      if env.sync1.Synced? {
        MismatchKeepsDurable(c, s2.(misses := s2.misses + 1), rec, env, key);
      }
    }
  }

  lemma UpgradeKeepsDurable(c: Crypto, s: State, rec: PinRecord, p: PinHash, env: Env, key: seq<byte>)
    requires Lawful(c) && Durable(c, s, key)
    requires s.files.pin == Some(rec) && rec.Record? && Verifies(c, rec, p)
    ensures var t := Upgrade(c, s, rec, p, env).0;
            && Durable(c, t, key) && t.files == s.files.(key := if rec.legacy then Unwrapped(c, key) else s.files.key)
            && OpenKey(c, c.session(p), t.files.key) == Some(key)
  {
    hide KeyOk, Durable, Held;
    DurableHeld(c, s, key);
    VerifiedKey(c, s, rec, p, key);
    UpgradeKeepsKey(c, s, rec, p, env, key);
    if rec.legacy {
      var session := c.legacySession(p);
      var file := Rewrapped(c, session, s.files.key, env.nonces(0));
      var s' := s.(session := session, unlocked := s.unlocked || IsWrapped(s.files.key));
      SameFlash(c, s, s', key);
      VerifiedOkIff(c, s'.files.(key := file), rec, p, key);
      WriteKeyDurableIff(c, s', file, key);
      VerifiedOkIff(c, s'.files.(key := Unwrapped(c, key)), rec, p, key);
      WriteKeyDurableIff(c, WriteKey(s', file), Unwrapped(c, key), key);
    }
  }

  // ---------------------------------------------------------------- getToken

  // A key file wrapped for one session, under a record whose PINs have another.
  lemma SealedOkIff(c: Crypto, f: Files, rec: PinRecord, p: PinHash, session: seq<byte>, nonce: nat, key: seq<byte>)
    requires Lawful(c) && Authentic(c) && rec.Record? && Verifies(c, rec, p) && f.pin == Some(rec)
    requires f.key == WrappedV2(c.seal(session, 2, nonce, c.baseEncrypt(key)))
    ensures KeyOk(c, f, key) <==> SessionFor(c, rec, p) == session
  {
    VerifiedOkIff(c, f, rec, p, key);
  }

  lemma WrappedOkIff(c: Crypto, f: Files, rec: PinRecord, p: PinHash, nonce: nat, stray: byte, key: seq<byte>)
    requires Lawful(c) && Authentic(c) && rec.Record? && Verifies(c, rec, p) && f.pin == Some(rec)
    requires OpenKey(c, c.session(p), f.key) == Some(key) && (rec.legacy ==> f.key == Unwrapped(c, key))
    ensures KeyOk(c, f.(key := Wrapped(c, c.session(p), f.key, nonce, stray)), key) <==>
              if rec.legacy then c.session(p) == c.legacySession(p) else KeptBy(c, false, f.key, stray, key)
  {
    hide KeyOk;
    VerifiedOkIff(c, f.(key := Wrapped(c, c.session(p), f.key, nonce, stray)), rec, p, key);
  }

  // The rest of getToken adds no risk.
  lemma TokenEndDurableIff(c: Crypto, s: State, rec: PinRecord, p: PinHash, nonce: nat, left: seq<byte>, key: seq<byte>)
    requires Lawful(c) && Held(s) && OpensFor(c, s, p, left)
    requires s.files.pin == Some(rec) && rec.Record? && Verifies(c, rec, p)
    requires Durable(c, s, key) ==> SessionFor(c, rec, p) == c.session(p)
    ensures var s1 := WriteKey(s, Rewrapped(c, c.session(p), s.files.key, nonce)).(unlocked := true);
            Durable(c, WriteFresh(s1, FreshRecord(c, p, rec.codePoints)), key) <==> Durable(c, s, key)
  {
    hide KeyOk, Durable, Held, Verifies, Rewrapped, FreshRecord, AllOk;
    var file, record := Rewrapped(c, c.session(p), s.files.key, nonce), FreshRecord(c, p, rec.codePoints);
    WriteKeyDurableIff(c, s, file, key);
    var s1 := WriteKey(s, file);
    SameFlash(c, s1, s1.(unlocked := true), key);
    WriteFreshDurableIff(c, s1.(unlocked := true), record, key);
    if Durable(c, s, key) {
      NowIsOk(c, s, key);
      VerifiedOkIff(c, s.files, rec, p, key);
      RewrapKeepsKey(c, c.session(p), s.files.key, nonce, key);
      VerifiedOkIff(c, s.files.(key := file), rec, p, key);
      FreshOkIff(c, s1.files.(pin := Some(record)), p, rec.codePoints, key);
    }
  }

  // A getToken that has verified the PIN wraps the key file before it writes the new record. It can lose
  // power at any point without losing the key if and only if, for a legacy record, the PIN has the same
  // session key in both formats, or, for a current one, the key file is not mistaken.
  lemma TokenSurvivesPowerLossIff(c: Crypto, s: State, rec: PinRecord, p: PinHash, env: Env, key: seq<byte>)
    requires Lawful(c) && Authentic(c) && Durable(c, s, key)
    requires s.files.pin == Some(rec) && rec.Record? && Verifies(c, rec, p)
    ensures Durable(c, UseToken(c, s, rec, p, env).0, key) <==>
              if rec.legacy then c.session(p) == c.legacySession(p) else KeptBy(c, false, s.files.key, env.stray, key)
  {
    hide KeyOk, Durable, Held, Upgrade, WriteKey, WrapKey, FreshRecord, Verifies, AllOk;
    UpgradeKeepsDurable(c, s, rec, p, env, key);
    VerifiedKey(c, s, rec, p, key);
    UpgradeKeepsKey(c, s, rec, p, env, key);
    var s1 := Upgrade(c, s, rec, p, env).0;
    WrappedOkIff(c, s1.files, rec, p, env.nonces(1), env.stray, key);
    DurableHeld(c, s1, key);
    WrapKeyDurableIff(c, s1, p, env.nonces(1), env.stray, key);
    WrapKeyLeaves(c, s1, p, env.nonces(1), env.stray, key);
    var s2 := WrapKey(c, s1, p, env.nonces(1), env.stray);
    var left := LeftKey(c, false, s1.files.key, env.stray, key);
    TokenEndDurableIff(c, s2, rec, p, env.nonces(2), left, key);
    var s3 := WriteKey(s2, Rewrapped(c, c.session(p), s2.files.key, env.nonces(2))).(unlocked := true);
    SameFlash(c, WriteFresh(s3, FreshRecord(c, p, rec.codePoints)), UseToken(c, s, rec, p, env).0, key);
  }

  // ---------------------------------------------------------------- changePIN

  // Moving the key to the new session wraps the file for it while the record of the old PIN is still stored.
  lemma RekeyDurableIff(c: Crypto, s: State, p: PinHash, codePoints: nat, n: PinHash, env: Env,
                        left: seq<byte>, key: seq<byte>)
    requires Lawful(c) && Authentic(c) && Held(s) && s.files.pin == Some(FreshRecord(c, p, codePoints))
    requires Durable(c, s, key) ==> left == key
    ensures var t := Rekeyed(c, s, n, env, left);
            && Held(t) && t.files.pin == s.files.pin && OpenKey(c, c.session(n), t.files.key) == Some(left)
            && (Durable(c, t, key) <==> Durable(c, s, key) && c.session(p) == c.session(n))
  {
    hide KeyOk, Durable, Held, AllOk, WriteKey, WrapKey, FreshRecord;
    var record := FreshRecord(c, p, codePoints);
    assert SamePin(s, WriteKey(s, Unwrapped(c, left)));
    WriteKeyDurableIff(c, s, Unwrapped(c, left), key);
    var s1 := WriteKey(s, Unwrapped(c, left));
    WrittenKey(s, Unwrapped(c, left));
    WrapKeyDurableIff(c, s1, n, env.nonces(3), env.stray, key);
    var t := WrapKey(c, s1, n, env.nonces(3), env.stray);
    if Durable(c, s, key) {
      UnwrapKeepsKey(c, c.session(p), key);
      FreshOkIff(c, s1.files, p, codePoints, key);
      FreshSealedOkIff(c, t.files, p, codePoints, c.session(n), env.nonces(3), key);
    }
  }

  lemma WrittenKey(s: State, key: KeyFile)
    ensures WriteKey(s, key).files == s.files.(key := key)
  {
  }

  lemma FreshSealedOkIff(c: Crypto, f: Files, p: PinHash, codePoints: nat, session: seq<byte>, nonce: nat,
                         key: seq<byte>)
    requires Lawful(c) && Authentic(c) && f.pin == Some(FreshRecord(c, p, codePoints))
    requires f.key == WrappedV2(c.seal(session, 2, nonce, c.baseEncrypt(key)))
    ensures KeyOk(c, f, key) <==> c.session(p) == session
  {
    FreshOkIff(c, f, p, codePoints, key);
  }

  lemma InstallDurableIff(c: Crypto, s: State, p: PinHash, codePoints: nat, n: NewPin, env: Env,
                          left: seq<byte>, key: seq<byte>)
    requires Lawful(c) && Authentic(c) && Held(s) && OpensFor(c, s, p, left) && s.session == c.session(p)
    requires s.files.pin == Some(FreshRecord(c, p, codePoints))
    ensures Durable(c, Install(c, s, p, n, env).0, key) <==> Durable(c, s, key) && c.session(p) == c.session(n.hash)
  {
    hide KeyOk, Durable, Held, FreshRecord, AllOk, WriteKey, Rekeyed, Rewrapped, WriteFresh;
    var file := Rewrapped(c, s.session, s.files.key, env.nonces(2));
    WriteKeyDurableIff(c, s, file, key);
    var s1 := WriteKey(s, file);
    WrittenKey(s, file);
    var s1' := s1.(unlocked := s1.unlocked || IsWrapped(s.files.key));
    SameFlash(c, s1, s1', key);
    RewrapKeepsKey(c, s.session, s.files.key, env.nonces(2), left);
    if Durable(c, s1', key) {
      NowIsOk(c, s1', key);
      FreshOkIff(c, s1'.files, p, codePoints, key);
    }
    if Durable(c, s, key) {
      NowIsOk(c, s, key);
      FreshOkIff(c, s.files, p, codePoints, key);
      FreshOkIff(c, s1'.files, p, codePoints, key);
    }
    RekeyDurableIff(c, s1', p, codePoints, n.hash, env, left, key);
    var s2 := Rekeyed(c, s1', n.hash, env, left);
    var record := FreshRecord(c, n.hash, n.codePoints);
    WriteFreshDurableIff(c, s2, record, key);
    FreshOkIff(c, s2.files.(pin := Some(record)), n.hash, n.codePoints, key);
    var s3 := WriteFresh(s2, record);
    SameFlash(c, s3, s3.(locked := false), key);
  }

  lemma RestoreDurableIff(c: Crypto, s: State, p: PinHash, codePoints: nat, env: Env, key: seq<byte>)
    requires Lawful(c) && Durable(c, s, key) && OpenKey(c, c.session(p), s.files.key) == Some(key)
    ensures var t := Restored(c, s, p, codePoints, env);
            && Held(t) && t.files.pin == Some(FreshRecord(c, p, codePoints)) && t.session == c.session(p)
            && OpensFor(c, t, p, LeftKey(c, false, s.files.key, env.stray, key))
            && (Durable(c, t, key) <==> KeptBy(c, false, s.files.key, env.stray, key))
  {
    hide KeyOk, Durable, Held, AllOk, WrapKey, FreshRecord, OpenKey, Unambiguous;
    var record := FreshRecord(c, p, codePoints);
    DurableHeld(c, s, key);
    var s1 := WriteFresh(s, record);
    WriteFreshDurableIff(c, s, record, key);
    FreshOkIff(c, s.files.(pin := Some(record)), p, codePoints, key);
    WrapKeyDurableIff(c, s1, p, env.nonces(1), env.stray, key);
    WrapKeyLeaves(c, s1, p, env.nonces(1), env.stray, key);
    var s2 := WrapKey(c, s1, p, env.nonces(1), env.stray);
    FreshOkIff(c, s2.files, p, codePoints, key);
    SameFlash(c, s2, s2.(mismatches := 0, misses := 0), key);
  }

  // A changePIN that has verified the old PIN, and upgraded its record if need be, can lose power at any
  // point without losing the key if and only if the key file is not mistaken and it installs no new PIN, or
  // one with the same session key.
  lemma ChangeSurvivesPowerLossIff(c: Crypto, s: State, rec: PinRecord, p: PinHash, n: NewPin, env: Env, key: seq<byte>)
    requires Lawful(c) && Authentic(c) && Durable(c, s, key)
    requires s.files.pin == Some(rec) && rec.Record? && Verifies(c, rec, p)
    ensures Durable(c, ReplacePin(c, s, rec, p, n, env).0, key) <==>
              && KeptBy(c, rec.legacy, s.files.key, env.stray, key)
              && (n.decrypted && n.accepted ==> c.session(p) == c.session(n.hash))
  {
    hide KeyOk, Durable, Held, AllOk, Upgrade, Restored, Install, FreshRecord, OpenKey;
    UpgradeKeepsDurable(c, s, rec, p, env, key);
    VerifiedKey(c, s, rec, p, key);
    UpgradeKeepsKey(c, s, rec, p, env, key);
    var s1 := Upgrade(c, s, rec, p, env).0;
    RestoreDurableIff(c, s1, p, rec.codePoints, env, key);
    var s2 := Restored(c, s1, p, rec.codePoints, env);
    InstallDurableIff(c, s2, p, rec.codePoints, n, env, LeftKey(c, false, s1.files.key, env.stray, key), key);
  }

  // ---------------------------------------------------------------- setPIN

  lemma SetSurvivesPowerLossIff(c: Crypto, s: State, q: SetRequest, env: Env, key: seq<byte>)
    requires Lawful(c) && Durable(c, s, key)
    ensures var (t, status) := SetPin(c, s, q, env);
            Durable(c, t, key) <==> (status == Success ==> KeptBy(c, false, s.files.key, env.stray, key))
  {
    hide KeyOk, Durable, Held, AllOk, Wrapped, FreshRecord, OpenKey, WrapKey, WriteFresh;
    var (t, status) := SetPin(c, s, q, env);
    if status == Success {
      var p, record := q.newPin.hash, FreshRecord(c, q.newPin.hash, q.newPin.codePoints);
      DurableHeld(c, s, key);
      NowIsOk(c, s, key);
      PinlessKey(c, s.files, c.session(p), key);
      var s1 := WriteFresh(s, record);
      WriteFreshDurableIff(c, s, record, key);
      FreshOkIff(c, s.files.(pin := Some(record)), p, q.newPin.codePoints, key);
      WrapKeyDurableIff(c, s1, p, env.nonces(0), env.stray, key);
      SetPinKeepsKey(c, s, q, env, key);
      SameFlash(c, WrapKey(c, s1, p, env.nonces(0), env.stray), t, key);
    }
  }

  lemma PinlessKey(c: Crypto, f: Files, session: seq<byte>, key: seq<byte>)
    requires KeyOk(c, f, key) && f.pin.None?
    ensures OpenKey(c, session, f.key) == Some(key)
  {
  }

  // ---------------------------------------------------------------- whole runs with power losses

  // What a command must not do: upgrade a legacy record by getToken when the PIN has another session key in
  // the current format, check a key file that it mistakes, or install a PIN with another session key.
  predicate StepSafe(c: Crypto, s: State, e: Event, key: seq<byte>) {
    match e
    case GetTokenCmd(q, env) =>
      var a := Attempted(c, s, e);
      a.Some? ==> if LegacyPin(s.files) then c.session(a.value.2) == c.legacySession(a.value.2)
                  else KeptBy(c, false, s.files.key, env.stray, key)
    case ChangePinCmd(q, env) =>
      var a := Attempted(c, s, e);
      a.Some? ==>
        && KeptBy(c, LegacyPin(s.files), s.files.key, env.stray, key)
        && (q.newPin.decrypted && q.newPin.accepted ==> c.session(a.value.2) == c.session(q.newPin.hash))
    case SetPinCmd(q, env) => Checks(c, s, e) ==> KeptBy(c, false, s.files.key, env.stray, key)
    case _ => true
  }

  // One step from a state in which a power loss loses nothing leads to such a state if and only if it is safe.
  lemma StepKeepsDurable(c: Crypto, s: State, e: Event, key: seq<byte>)
    requires Lawful(c) && Authentic(c) && Durable(c, s, key) && !e.AuthenticatorReset?
    ensures Durable(c, Step(c, s, e).0, key) <==> StepSafe(c, s, e, key)
  {
    hide KeyOk, Durable, Held, AllOk, UseToken, ReplacePin, TryPin, SetPin, OpenKey, Verifies, KeptBy;
    NowIsOk(c, s, key);
    if e.SetPinCmd? {
      SetSurvivesPowerLossIff(c, s, e.request, e.env, key);
    } else if e.PowerLoss? {
      FoundDurable(c, s, e.found, key);
    } else if e.InitFido? {
      SameFlash(c, s, Step(c, s, e).0, key);
    } else if s.files.pin.Some? && s.files.pin.value.count > 0 {
      AttemptKeepsDurable(c, s, if e.GetTokenCmd? then e.ask.pin else e.change.pin, e.env, key);
      if Attempted(c, s, e).Some? {
        AttemptedKeepsKey(c, s, e, key);
        var (s1, rec, p) := Attempted(c, s, e).value;
        if e.GetTokenCmd? {
          TokenSurvivesPowerLossIff(c, s1, rec, p, e.env, key);
        } else {
          ChangeSurvivesPowerLossIff(c, s1, rec, p, e.change.newPin, e.env, key);
        }
      }
    }
  }

  lemma FoundDurable(c: Crypto, s: State, found: nat, key: seq<byte>)
    requires Durable(c, s, key)
    ensures Durable(c, Step(c, s, PowerLoss(found)).0, key)
  {
    NowIsOk(c, s, key);
    var t := Step(c, s, PowerLoss(found)).0;
    assert t.maybe[0].files == t.files;
  }

  predicate RunSafe(c: Crypto, s: State, events: seq<Event>, key: seq<byte>)
    decreases |events|
  {
    events != [] ==> StepSafe(c, s, events[0], key) && RunSafe(c, Step(c, s, events[0]).0, events[1..], key)
  }

  ghost predicate AlwaysDurable(c: Crypto, s: State, events: seq<Event>, key: seq<byte>)
    decreases |events|
  {
    Durable(c, s, key) && (events != [] ==> AlwaysDurable(c, Step(c, s, events[0]).0, events[1..], key))
  }

  // In every run, with power losses anywhere: at every moment the accepted PIN gets the same device key from
  // everything the flash may be left with, if and only if every step is safe.
  lemma {:induction false} KeySurvivesPowerLoss(c: Crypto, s: State, events: seq<Event>, key: seq<byte>)
    requires Lawful(c) && Authentic(c) && Durable(c, s, key)
    requires forall i | 0 <= i < |events| :: !events[i].AuthenticatorReset?
    ensures AlwaysDurable(c, s, events, key) <==> RunSafe(c, s, events, key)
    ensures RunSafe(c, s, events, key) ==> Durable(c, Run(c, s, events), key) && KeyOk(c, Run(c, s, events).files, key)
    decreases |events|
  {
    hide Durable, KeyOk, StepSafe, Step;
    if events == [] {
      NowIsOk(c, s, key);
    } else {
      StepKeepsDurable(c, s, events[0], key);
      if StepSafe(c, s, events[0], key) {
        KeySurvivesPowerLoss(c, Step(c, s, events[0]).0, events[1..], key);
      } else {
        NotDurable(c, Step(c, s, events[0]).0, events[1..], key);
      }
    }
  }

  lemma NotDurable(c: Crypto, s: State, events: seq<Event>, key: seq<byte>)
    requires !Durable(c, s, key)
    ensures !AlwaysDurable(c, s, events, key)
  {
  }

  // ---------------------------------------------------------------- without anything left from older firmware

  predicate CleanFiles(f: Files) {
    !LegacyPin(f) && Unambiguous(f.key)
  }

  ghost predicate Clean(s: State) {
    CleanFiles(s.files) && forall i | 0 <= i < |s.maybe| :: CleanFiles(s.maybe[i].files)
  }

  lemma WriteKeyClean(s: State, file: KeyFile)
    requires Clean(s) && Unambiguous(file)
    ensures Clean(WriteKey(s, file)) && WriteKey(s, file).files == s.files.(key := file)
  {
  }

  lemma WriteFreshClean(c: Crypto, s: State, p: PinHash, codePoints: nat)
    requires Clean(s)
    ensures Clean(WriteFresh(s, FreshRecord(c, p, codePoints)))
  {
  }

  lemma WrapKeyClean(c: Crypto, s: State, p: PinHash, nonce: nat, stray: byte)
    requires Clean(s)
    ensures Clean(WrapKey(c, s, p, nonce, stray))
  {
    hide WriteKey;
    var file := Wrapped(c, c.session(p), s.files.key, nonce, stray);
    WriteKeyClean(s.(session := c.session(p), unlocked := s.unlocked || file != s.files.key), file);
  }

  lemma UseTokenClean(c: Crypto, s: State, rec: PinRecord, p: PinHash, env: Env)
    requires Clean(s) && rec.Record? && !rec.legacy
    ensures Clean(UseToken(c, s, rec, p, env).0)
  {
    hide WriteKey, WrapKey, WriteFresh, FreshRecord;
    WrapKeyClean(c, s, p, env.nonces(1), env.stray);
    var s1 := WrapKey(c, s, p, env.nonces(1), env.stray);
    var s2 := WriteKey(s1, Rewrapped(c, s1.session, s1.files.key, env.nonces(2)));
    WriteKeyClean(s1, Rewrapped(c, s1.session, s1.files.key, env.nonces(2)));
    WriteFreshClean(c, s2.(unlocked := OpenKey(c, s1.session, s1.files.key).Some?), p, rec.codePoints);
  }

  lemma ReplacePinClean(c: Crypto, s: State, rec: PinRecord, p: PinHash, n: NewPin, env: Env)
    requires Clean(s) && rec.Record? && !rec.legacy
    ensures Clean(ReplacePin(c, s, rec, p, n, env).0)
  {
    hide WriteKey, WrapKey, WriteFresh, FreshRecord, Install;
    var s1 := WriteFresh(s, FreshRecord(c, p, rec.codePoints));
    WriteFreshClean(c, s, p, rec.codePoints);
    WrapKeyClean(c, s1, p, env.nonces(1), env.stray);
    InstallClean(c, Restored(c, s, p, rec.codePoints, env), p, n, env);
  }

  lemma InstallClean(c: Crypto, s: State, p: PinHash, n: NewPin, env: Env)
    requires Clean(s)
    ensures Clean(Install(c, s, p, n, env).0)
  {
    hide WriteKey, WrapKey, WriteFresh, FreshRecord;
    var key := OpenKey(c, s.session, s.files.key);
    WriteKeyClean(s, Rewrapped(c, s.session, s.files.key, env.nonces(2)));
    if key.Some? {
      var s1 := WriteKey(s, Rewrapped(c, s.session, s.files.key, env.nonces(2)));
      var s1' := s1.(unlocked := s1.unlocked || IsWrapped(s.files.key));
      WriteKeyClean(s1', Unwrapped(c, key.value));
      WrapKeyClean(c, WriteKey(s1', Unwrapped(c, key.value)), n.hash, env.nonces(3), env.stray);
      WriteFreshClean(c, Rekeyed(c, s1', n.hash, env, key.value), n.hash, n.codePoints);
    }
  }

  lemma AttemptClean(c: Crypto, s: State, p: Option<PinHash>, env: Env)
    requires Clean(s) && s.files.pin.Some? && s.files.pin.value.count > 0
    ensures var (t, attempt) := TryPin(c, s, p, env);
            Clean(t) && (attempt.Correct? ==> attempt.rec.Record? && !attempt.rec.legacy)
  {
    hide Verifies, Unambiguous;
  }

  lemma StepKeepsClean(c: Crypto, s: State, e: Event)
    requires Clean(s) && !e.AuthenticatorReset?
    ensures Clean(Step(c, s, e).0)
  {
    hide Clean, TryPin, UseToken, ReplacePin, SetPin;
    if e.SetPinCmd? {
      SetPinClean(c, s, e.request, e.env);
    } else if e.PowerLoss? {
      FoundClean(c, s, e.found);
    } else if e.InitFido? {
      RamKeepsClean(s, s.(locked := false, unlocked := false));
    } else if s.files.pin.Some? && s.files.pin.value.count > 0 {
      var p := if e.GetTokenCmd? then e.ask.pin else e.change.pin;
      AttemptClean(c, s, p, e.env);
      TryPinCorrect(c, s, p, e.env);
      var (s1, attempt) := TryPin(c, s, p, e.env);
      if attempt.Correct? {
        if e.GetTokenCmd? {
          UseTokenClean(c, s1, attempt.rec, p.value, e.env);
        } else {
          ReplacePinClean(c, s1, attempt.rec, p.value, e.change.newPin, e.env);
        }
      }
    }
  }

  lemma SetPinClean(c: Crypto, s: State, q: SetRequest, env: Env)
    requires Clean(s)
    ensures Clean(SetPin(c, s, q, env).0)
  {
    hide WrapKey, WriteFresh, FreshRecord;
    WriteFreshClean(c, s, q.newPin.hash, q.newPin.codePoints);
    WrapKeyClean(c, WriteFresh(s, FreshRecord(c, q.newPin.hash, q.newPin.codePoints)), q.newPin.hash,
                 env.nonces(0), env.stray);
  }

  lemma RamKeepsClean(s: State, t: State)
    requires Clean(s) && s.files == t.files && s.maybe == t.maybe
    ensures Clean(t)
  {
  }

  lemma FoundClean(c: Crypto, s: State, found: nat)
    requires Clean(s)
    ensures Clean(Step(c, s, PowerLoss(found)).0)
  {
  }

  // The event installs no PIN with another session key.
  predicate KeepsPin(c: Crypto, e: Event) {
    e.ChangePinCmd? && e.change.pin.Some? && e.change.newPin.decrypted && e.change.newPin.accepted ==>
      c.session(e.change.pin.value) == c.session(e.change.newPin.hash)
  }

  // Where no legacy PIN record and no ambiguous key file is left, a new PIN is the only danger.
  lemma {:induction false} CleanRunIsSafe(c: Crypto, s: State, events: seq<Event>, key: seq<byte>)
    requires Clean(s) && forall i | 0 <= i < |events| :: KeepsPin(c, events[i]) && !events[i].AuthenticatorReset?
    ensures RunSafe(c, s, events, key)
    decreases |events|
  {
    if events != [] {
      CleanStepIsSafe(c, s, events[0], key);
      StepKeepsClean(c, s, events[0]);
      CleanRunIsSafe(c, Step(c, s, events[0]).0, events[1..], key);
    }
  }

  lemma CleanStepIsSafe(c: Crypto, s: State, e: Event, key: seq<byte>)
    requires Clean(s) && KeepsPin(c, e)
    ensures StepSafe(c, s, e, key)
  {
    hide TryPin, SetPin;
    if (e.GetTokenCmd? || e.ChangePinCmd?) && s.files.pin.Some? && s.files.pin.value.count > 0 {
      TryPinCorrect(c, s, if e.GetTokenCmd? then e.ask.pin else e.change.pin, e.env);
    }
  }

  // ---------------------------------------------------------------- the premises can be met

  // A device as it leaves its first initialization satisfies all that the theorems about runs start from.
  lemma NewDevice(c: Crypto, key: seq<byte>)
    requires Lawful(c)
    ensures var files := Files(None, Unwrapped(c, key));
            var s := State(files, [Candidate(files, 0)], false, 0, [], false, 0, 0);
            Bounded(s) && Counted(s) && KeyOk(c, s.files, key) && Durable(c, s, key) && Clean(s)
  {
    var files := Files(None, Unwrapped(c, key));
    var s := State(files, [Candidate(files, 0)], false, 0, [], false, 0, 0);
    assert s.maybe[0] == Candidate(s.files, s.guesses);
  }

  // The session key spelled out, so that no other key fits what it sealed.
  function Tag(k: seq<byte>): seq<byte> {
    if k == [] then [0] else [1, k[0]] + Tag(k[1..])
  }

  function Untagged(k: seq<byte>, w: seq<byte>): Option<seq<byte>> {
    if |Tag(k)| <= |w| && w[..|Tag(k)|] == Tag(k) then Some(w[|Tag(k)|..]) else None
  }

  // Crypto without secrecy that keeps every law.
  const IDEAL: Crypto := Crypto(
    p => p, p => p, p => p, p => [0] + p,
    (k, v, n, x) => Tag(k) + x, (k, v, w) => Untagged(k, w), x => x, x => x, x => x)

  lemma {:induction false} TagFits(k: seq<byte>, k': seq<byte>, x: seq<byte>)
    requires Untagged(k', Tag(k) + x).Some?
    ensures k == k'
  {
    var w, t' := Tag(k) + x, Tag(k');
    assert w[0] == w[..|t'|][0];
    if k != [] && k' != [] {
      assert w[1] == w[..|t'|][1];
      assert w[2..] == Tag(k[1..]) + x;
      assert w[..|t'|][2..] == w[2..][..|t'| - 2];
      TagFits(k[1..], k'[1..], x);
    }
  }

  lemma IdealIsLawful()
    ensures Lawful(IDEAL) && Authentic(IDEAL) && forall p: PinHash :: IDEAL.session(p) != IDEAL.legacySession(p)
  {
    forall k: seq<byte>, v: nat, n: nat, x: seq<byte>
      ensures IDEAL.open(k, v, IDEAL.seal(k, v, n, x)) == Some(x)
    {
      assert (Tag(k) + x)[..|Tag(k)|] == Tag(k);
      assert (Tag(k) + x)[|Tag(k)|..] == x;
    }
    forall k: seq<byte>, k': seq<byte>, v: nat, n: nat, x: seq<byte> | k != k'
      ensures IDEAL.open(k', v, IDEAL.seal(k, v, n, x)) == None
    {
      if Untagged(k', Tag(k) + x).Some? {
        TagFits(k, k', x);
      }
    }
    forall p: PinHash
      ensures IDEAL.session(p) != IDEAL.legacySession(p)
    {
      assert |IDEAL.legacySession(p)| == |p| + 1;
    }
    forall p: PinHash, q: PinHash | IDEAL.legacyVerifier(p) == IDEAL.legacyVerifier(q)
      ensures IDEAL.legacySession(p) == IDEAL.legacySession(q)
    {
    }
  }

  // Both losses are real: a getToken that upgrades a legacy record, and a changePIN to another PIN.
  lemma PowerLossCanLoseKey(p: PinHash, n: PinHash, key: seq<byte>, env: Env)
    requires p != n && !env.forceChange
    ensures var old' := Record(7, false, true, 4, IDEAL.legacyVerifier(p));
            var files := Files(Some(old'), Unwrapped(IDEAL, key));
            var s := State(files, [Candidate(files, 1)], false, 0, [], false, 1, 0);
            && Durable(IDEAL, s, key)
            && UseToken(IDEAL, s, old', p, env).1 == Success && !Durable(IDEAL, UseToken(IDEAL, s, old', p, env).0, key)
            && var (t, status) := ReplacePin(IDEAL, s, old', p, NewPin(true, true, n, 4), env);
               status == Success && !Durable(IDEAL, t, key)
  {
    IdealIsLawful();
    var old' := Record(7, false, true, 4, IDEAL.legacyVerifier(p));
    var files := Files(Some(old'), Unwrapped(IDEAL, key));
    var s := State(files, [Candidate(files, 1)], false, 0, [], false, 1, 0);
    VerifiedOkIff(IDEAL, files, old', p, key);
    assert s.maybe[0].files == s.files && Verifies(IDEAL, old', p);
    TokenSurvivesPowerLossIff(IDEAL, s, old', p, env, key);
    UseTokenKeepsKey(IDEAL, s, old', p, env, key);
    ChangeSurvivesPowerLossIff(IDEAL, s, old', p, NewPin(true, true, n, 4), env, key);
    ReplacePinKeepsKey(IDEAL, s, old', p, NewPin(true, true, n, 4), env, key);
  }
}
