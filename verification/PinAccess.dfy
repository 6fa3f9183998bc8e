/** The PIN from the side of its owner (src/fido/cbor_client_pin.c): exactly when a request succeeds, what it
    leaves then, and what a request that is refused costs. */
module PinAccess {
  import opened Bytes
  import opened ClientPin
  import opened ClientPinProofs
  import opened DeviceKey

  // ---------------------------------------------------------------- one attempt

  // The right PIN, of the current or the legacy format, is presented to a device that is not locked, and the
  // decremented record reaches the flash.
  predicate RightPin(c: Crypto, s: State, p: Option<PinHash>, env: Env) {
    && s.files.pin.Some? && s.files.pin.value.Record? && s.files.pin.value.count > 0
    && env.sync1.Synced? && p.Some? && !s.locked
    && var stored := s.files.pin.value;
    && stored.verifier == if stored.legacy then c.legacyVerifier(p.value) else c.verifier(p.value)
  }

  // An attempt gets through if and only if the record is well-formed, its decremented form reaches the
  // flash, the PIN decrypts and verifies, and the device is not locked. The marker does not matter.
  lemma AttemptCorrectIff(c: Crypto, s: State, p: Option<PinHash>, env: Env)
    requires s.files.pin.Some? && s.files.pin.value.count > 0
    ensures TryPin(c, s, p, env).1.Correct? <==> RightPin(c, s, p, env)
  {
    hide Mismatch, CountGuess;
    var stored := s.files.pin.value;
    if stored.Record? {
      var rec := stored.(count := stored.count - 1);
      SameVerdict(c, stored, rec);
      CountGuessFields(Persist(s, rec, env.sync1).0);
      MismatchRefuses(Missed(s, rec), rec, env);
    }
  }

  // Every content the flash may hold, and the one that is visible, has this retry count.
  predicate CountIn(s: State, count: nat) {
    && s.files.pin.Some? && s.files.pin.value.count == count
    && forall i | 0 <= i < |s.maybe| :: s.maybe[i].files.pin.Some? && s.maybe[i].files.pin.value.count == count
  }

  // What an attempt costs when no PIN is compared with success: nothing if the record is malformed or the
  // flash refuses the write, and one retry, certain to be in flash, if the PIN does not decrypt or the
  // device is locked.
  lemma AttemptCosts(c: Crypto, s: State, p: Option<PinHash>, env: Env)
    requires s.files.pin.Some? && s.files.pin.value.count > 0
    ensures var stored := s.files.pin.value;
            var (t, attempt) := TryPin(c, s, p, env);
            && (stored.Malformed? || env.sync1.NotWritten? ==> t == s && attempt == Refused(Processing))
            && (stored.Record? && env.sync1.NotSynced? ==> attempt == Refused(Processing))
            && (stored.Record? && env.sync1.Synced? ==>
                  && CountIn(t, stored.count - 1)
                  && (p.None? ==> attempt == Refused(PinAuthInvalid) && t.guesses == s.guesses)
                  && (p.Some? && Verifies(c, stored, p.value) && s.locked ==> attempt == Refused(PinAuthBlocked)))
  {
    hide Mismatch, CountGuess;
    var stored := s.files.pin.value;
    if stored.Record? {
      var rec := stored.(count := stored.count - 1);
      SameVerdict(c, stored, rec);
      CountGuessFields(Persist(s, rec, env.sync1).0);
      MissedFiles(s, rec);
      MismatchKeepsCount(Missed(s, rec), rec, env);
    }
  }

  lemma MissedFiles(s: State, rec: PinRecord)
    ensures var t := Missed(s, rec);
            t.files.pin == Some(rec) && forall i | 0 <= i < |t.maybe| :: t.maybe[i].files.pin == Some(rec)
  {
    CountGuessFields(Persist(s, rec, Synced).0);
  }

  lemma MismatchKeepsCount(s: State, rec: PinRecord, env: Env)
    requires rec.Record? && s.files.pin == Some(rec)
    requires forall i | 0 <= i < |s.maybe| :: s.maybe[i].files.pin == Some(rec)
    ensures CountIn(Mismatch(s, rec, env).0, rec.count)
  {
  }

  // ---------------------------------------------------------------- getToken

  // The command gets as far as an attempt; otherwise it changes nothing.
  predicate AsksToken(s: State, q: TokenRequest) {
    q.present && q.permitted && q.ecdhOk && s.files.pin.Some? && s.files.pin.value.count > 0
  }

  // The device key opens under the session of that PIN.
  predicate KeyOpens(c: Crypto, s: State, p: Option<PinHash>) {
    && s.files.pin.Some? && s.files.pin.value.Record? && p.Some?
    && OpenKey(c, SessionFor(c, s.files.pin.value, p.value), s.files.key).Some?
  }

  lemma TokenNeedsKey(c: Crypto, s: State, rec: PinRecord, p: PinHash, env: Env)
    requires rec.Record? && OpenKey(c, SessionFor(c, rec, p), s.files.key).None?
    ensures UseToken(c, s, rec, p, env).1 != Success
  {
    hide GrantToken;
  }

  lemma GrantFields(c: Crypto, s: State, rec: PinRecord, p: PinHash, env: Env)
    requires rec.Record?
    ensures var (t, status) := UseToken(c, s, rec, p, env);
            status == Success ==> !t.locked && t.mismatches == 0
  {
    hide Upgrade, WrapKey, WriteKey, OpenKey, Rewrapped, WriteFresh;
  }

  lemma AttemptKeepsSession(c: Crypto, s: State, p: Option<PinHash>, env: Env)
    requires RightPin(c, s, p, env)
    ensures p.Some? && s.files.pin.Some? && s.files.pin.value.Record? && !s.locked
    ensures var (s1, attempt) := TryPin(c, s, p, env);
            && attempt.Correct? && attempt.rec.Record? && s1.files.key == s.files.key
            && attempt.rec == s.files.pin.value.(count := s.files.pin.value.count - 1)
            && Verifies(c, attempt.rec, p.value)
            && SessionFor(c, attempt.rec, p.value) == SessionFor(c, s.files.pin.value, p.value)
  {
    hide TryPin;
    AttemptCorrectIff(c, s, p, env);
    TryPinCorrect(c, s, p, env);
  }

  // A token is given out if and only if the request is complete, the right PIN is presented, the device key
  // opens, and no change of PIN is pending. The retry count is then 8 again and the marker is gone.
  lemma TokenIff(c: Crypto, s: State, q: TokenRequest, env: Env)
    requires Lawful(c)
    ensures var (t, status) := GetToken(c, s, q, env);
            && (!AsksToken(s, q) ==> t == s)
            && (status == Success <==>
                  AsksToken(s, q) && RightPin(c, s, q.pin, env) && KeyOpens(c, s, q.pin) && !env.forceChange)
            && (status == Success ==>
                  && t.files.pin == Some(Record(8, false, false, s.files.pin.value.codePoints, c.verifier(q.pin.value)))
                  && !t.locked && t.mismatches == 0 && t.unlocked && t.session == c.session(q.pin.value))
  {
    hide TryPin, UseToken, RightPin, OpenKey, KeyOk, Lawful;
    if AsksToken(s, q) {
      AttemptCorrectIff(c, s, q.pin, env);
      RefusedIsNoSuccess(c, s, q.pin, env);
      if RightPin(c, s, q.pin, env) {
        AttemptKeepsSession(c, s, q.pin, env);
        var (s1, attempt) := TryPin(c, s, q.pin, env);
        GrantFields(c, s1, attempt.rec, q.pin.value, env);
        if KeyOpens(c, s, q.pin) {
          UseTokenKeepsKey(c, s1, attempt.rec, q.pin.value, env,
                           OpenKey(c, SessionFor(c, attempt.rec, q.pin.value), s1.files.key).value);
        } else {
          TokenNeedsKey(c, s1, attempt.rec, q.pin.value, env);
        }
      }
    }
  }

  lemma RefusedIsNoSuccess(c: Crypto, s: State, p: Option<PinHash>, env: Env)
    requires s.files.pin.Some? && s.files.pin.value.count > 0
    ensures TryPin(c, s, p, env).1.Refused? ==> TryPin(c, s, p, env).1.status != Success
  {
    hide Verifies, CountGuess, Persist;
  }

  // ---------------------------------------------------------------- changePIN

  predicate AsksChange(s: State, q: ChangeRequest) {
    && q.present && s.files.pin.Some? && s.files.pin.value.count > 0 && !s.locked
    && q.lengthsOk && q.ecdhOk && q.authOk
  }

  lemma ChangeNeedsKey(c: Crypto, s: State, rec: PinRecord, p: PinHash, n: NewPin, env: Env)
    requires rec.Record? && OpenKey(c, SessionFor(c, rec, p), s.files.key).None?
    ensures ReplacePin(c, s, rec, p, n, env).1 != Success
  {
    hide Rekeyed, StorePin, Restored, FreshRecord;
    if !rec.legacy {
      RestoredKeepsSealed(c, s, p, rec.codePoints, env);
    }
  }

  // A key file that is sealed, or missing, stays as it is while the retry count comes back.
  lemma RestoredKeepsSealed(c: Crypto, s: State, p: PinHash, codePoints: nat, env: Env)
    requires IsWrapped(s.files.key) || s.files.key.Absent?
    ensures var t := Restored(c, s, p, codePoints, env);
            t.files.key == s.files.key && t.session == c.session(p)
  {
  }

  lemma ChangeFields(c: Crypto, s: State, rec: PinRecord, p: PinHash, n: NewPin, env: Env)
    requires rec.Record?
    ensures var (t, status) := ReplacePin(c, s, rec, p, n, env);
            status == Success ==> !t.locked && t.mismatches == 0
  {
    hide Upgrade, WrapKey, WriteKey, OpenKey, Rewrapped, WriteFresh;
    if Upgrade(c, s, rec, p, env).1 {
      InstallFields(c, Restored(c, Upgrade(c, s, rec, p, env).0, p, rec.codePoints, env), p, n, env);
    }
  }

  lemma InstallFields(c: Crypto, s: State, p: PinHash, n: NewPin, env: Env)
    ensures var (t, status) := Install(c, s, p, n, env);
            t.mismatches == s.mismatches && (status == Success ==> !t.locked)
  {
    hide OpenKey, Rewrapped, Unwrapped, Wrapped;
  }

  // The PIN is changed if and only if the request is complete, the old PIN is right, the device key opens,
  // and the new PIN decrypts, meets the policies and is not the old one again when a change is pending.
  lemma ChangeIff(c: Crypto, s: State, q: ChangeRequest, env: Env)
    requires Lawful(c)
    ensures var (t, status) := ChangePin(c, s, q, env);
            && (!AsksChange(s, q) ==> t == s)
            && (status == Success <==>
                  && AsksChange(s, q) && RightPin(c, s, q.pin, env) && KeyOpens(c, s, q.pin)
                  && Installs(c, q.pin.value, q.newPin, env))
            && (status == Success ==>
                  && t.files.pin == Some(Record(8, false, false, q.newPin.codePoints, c.verifier(q.newPin.hash)))
                  && !t.locked && t.mismatches == 0)
  {
    hide TryPin, ReplacePin, RightPin, OpenKey, KeyOk, Lawful, Installs;
    if AsksChange(s, q) {
      AttemptCorrectIff(c, s, q.pin, env);
      RefusedIsNoSuccess(c, s, q.pin, env);
      if RightPin(c, s, q.pin, env) {
        AttemptKeepsSession(c, s, q.pin, env);
        var (s1, attempt) := TryPin(c, s, q.pin, env);
        ChangeFields(c, s1, attempt.rec, q.pin.value, q.newPin, env);
        if KeyOpens(c, s, q.pin) {
          ReplacePinKeepsKey(c, s1, attempt.rec, q.pin.value, q.newPin, env,
                             OpenKey(c, SessionFor(c, attempt.rec, q.pin.value), s1.files.key).value);
        } else {
          ChangeNeedsKey(c, s1, attempt.rec, q.pin.value, q.newPin, env);
        }
      }
    }
  }

  // ---------------------------------------------------------------- setPIN

  lemma SetIff(c: Crypto, s: State, q: SetRequest, env: Env)
    ensures var (t, status) := SetPin(c, s, q, env);
            && (status == Success <==>
                  && q.present && s.files.pin.None? && q.lengthsOk && q.ecdhOk && q.authOk
                  && q.newPin.decrypted && q.newPin.accepted)
            && (status == Success ==>
                  && t.files.pin == Some(Record(8, false, false, q.newPin.codePoints, c.verifier(q.newPin.hash)))
                  && !t.locked && t.mismatches == 0)
            && (status != Success ==> t == s)
  {
    hide Wrapped;
  }

  // ---------------------------------------------------------------- the device key at rest

  // Only a 32-byte legacy file that is not taken for format 0x01, under a PIN in the new format, is left open.
  predicate LeftOpen(f: Files) {
    f.key.Raw? && Unambiguous(f.key) && !LegacyPin(f)
  }

  lemma UseTokenSeals(c: Crypto, s: State, rec: PinRecord, p: PinHash, env: Env)
    requires rec.Record? && s.files.pin.Some? && s.files.pin.value.Record? && s.files.pin.value.legacy == rec.legacy
    ensures var (t, status) := UseToken(c, s, rec, p, env);
            status == Success ==> if LeftOpen(s.files) then t.files.key == s.files.key else t.files.key.WrappedV2?
  {
    hide FreshRecord;
  }

  lemma ReplacePinSeals(c: Crypto, s: State, rec: PinRecord, p: PinHash, n: NewPin, env: Env)
    requires rec.Record?
    ensures var (t, status) := ReplacePin(c, s, rec, p, n, env);
            status == Success ==> t.files.key.WrappedV2?
  {
    hide Upgrade, Restored, FreshRecord;
  }

  // Every accepted PIN command leaves the device key sealed in format 0x03 under the session of the PIN that
  // holds from then on, except for the file getToken leaves open and those setPIN does not know how to seal.
  lemma KeyIsSealed(c: Crypto, s: State, e: Event)
    requires e.GetTokenCmd? || e.ChangePinCmd? || e.SetPinCmd?
    ensures var (t, status) := Step(c, s, e);
            status == Success ==>
              match e
              case GetTokenCmd(q, env) =>
                if LeftOpen(s.files) then t.files.key == s.files.key else t.files.key.WrappedV2?
              case ChangePinCmd(q, env) => t.files.key.WrappedV2?
              case SetPinCmd(q, env) =>
                if s.files.key.Plain? || !Unambiguous(s.files.key) then t.files.key.WrappedV2?
                else t.files.key == s.files.key
  {
    hide TryPin, UseToken, ReplacePin, RightPin, FreshRecord, LeftOpen;
    match e
    case GetTokenCmd(q, env) =>
      if AsksToken(s, q) {
        AttemptCorrectIff(c, s, q.pin, env);
        RefusedIsNoSuccess(c, s, q.pin, env);
        if RightPin(c, s, q.pin, env) {
          AttemptKeepsSession(c, s, q.pin, env);
          var (s1, attempt) := TryPin(c, s, q.pin, env);
          TryPinFiles(c, s, q.pin, env);
          UseTokenSeals(c, s1, attempt.rec, q.pin.value, env);
          SameLeftOpen(s.files, s1.files, s.files.pin.value.count - 1);
        }
      }
    case ChangePinCmd(q, env) =>
      if AsksChange(s, q) {
        AttemptCorrectIff(c, s, q.pin, env);
        RefusedIsNoSuccess(c, s, q.pin, env);
        if RightPin(c, s, q.pin, env) {
          AttemptKeepsSession(c, s, q.pin, env);
          var (s1, attempt) := TryPin(c, s, q.pin, env);
          ReplacePinSeals(c, s1, attempt.rec, q.pin.value, q.newPin, env);
        }
      }
    case SetPinCmd(q, env) =>
  }

  lemma TryPinFiles(c: Crypto, s: State, p: Option<PinHash>, env: Env)
    requires RightPin(c, s, p, env)
    ensures var stored := s.files.pin.value;
            TryPin(c, s, p, env).0.files == s.files.(pin := Some(stored.(count := stored.count - 1)))
  {
    hide Mismatch, CountGuess;
    var rec := s.files.pin.value.(count := s.files.pin.value.count - 1);
    SameVerdict(c, s.files.pin.value, rec);
    CountGuessFields(Persist(s, rec, env.sync1).0);
  }

  lemma SameLeftOpen(f: Files, g: Files, count: nat)
    requires f.pin.Some? && f.pin.value.Record? && g == f.(pin := Some(f.pin.value.(count := count)))
    ensures LeftOpen(f) == LeftOpen(g)
  {
  }

  // ---------------------------------------------------------------- a PIN that was set is the PIN that works

  // The files hold this PIN, and the device key opens for it.
  ghost predicate Holds(c: Crypto, s: State, p: PinHash, key: seq<byte>) {
    && s.files.pin.Some? && s.files.pin.value.Record? && !s.files.pin.value.legacy && s.files.pin.value.count > 0
    && s.files.pin.value.verifier == c.verifier(p) && KeyOk(c, s.files, key)
  }

  // On a device that holds a PIN and is not locked, with working flash and no pending change, a complete
  // token request succeeds if and only if its PIN has the same verifier.
  lemma HeldPinWorks(c: Crypto, s: State, p: PinHash, key: seq<byte>, q: TokenRequest, env: Env)
    requires Lawful(c) && Holds(c, s, p, key) && !s.locked && env.sync1.Synced? && !env.forceChange
    requires q.present && q.permitted && q.ecdhOk && q.pin.Some?
    ensures GetToken(c, s, q, env).1 == Success <==> c.verifier(q.pin.value) == c.verifier(p)
  {
    hide GetToken, Lawful, FreshRecord;
    TokenIff(c, s, q, env);
  }

  // Setting and changing the PIN leave a device that holds the new one, with its key.
  lemma SetPinIsHeld(c: Crypto, s: State, q: SetRequest, env: Env, key: seq<byte>)
    requires Lawful(c) && KeyOk(c, s.files, key) && SetPin(c, s, q, env).1 == Success
    ensures var t := SetPin(c, s, q, env).0;
            !t.locked && Holds(c, t, q.newPin.hash, LeftKey(c, false, s.files.key, env.stray, key))
  {
    hide SetPin, Lawful, KeyOk, LeftKey;
    SetIff(c, s, q, env);
    SetPinKeepsKey(c, s, q, env, key);
  }

  lemma ChangedPinIsHeld(c: Crypto, s: State, q: ChangeRequest, env: Env, key: seq<byte>)
    requires Lawful(c) && KeyOk(c, s.files, key) && ChangePin(c, s, q, env).1 == Success
    ensures var t := ChangePin(c, s, q, env).0;
            !t.locked && Holds(c, t, q.newPin.hash, LeftKey(c, LegacyPin(s.files), s.files.key, env.stray, key))
  {
    hide TryPin, ReplacePin, Lawful, KeyOk, LeftKey, Verifies, OpenKey;
    ChangeIff(c, s, q, env);
    var e := ChangePinCmd(q, env);
    AttemptCorrectIff(c, s, q.pin, env);
    StepKeepsKey(c, s, e, key);
  }

  // A locked device is unlocked by the next power-up and by init_fido, with the PIN and the key it held.
  lemma RestartUnlocks(c: Crypto, s: State, p: PinHash, key: seq<byte>, q: TokenRequest, env: Env, e: Event)
    requires Lawful(c) && Holds(c, s, p, key) && env.sync1.Synced? && !env.forceChange
    requires q.present && q.permitted && q.ecdhOk && q.pin == Some(p)
    requires e == InitFido || (e.PowerLoss? && (e.found < |s.maybe| ==> s.maybe[e.found].files == s.files))
    ensures GetToken(c, Step(c, s, e).0, q, env).1 == Success
  {
    hide GetToken, Lawful, KeyOk;
    HeldPinWorks(c, Step(c, s, e).0, p, key, q, env);
  }

  // After an authenticator reset a new PIN can be set, and the old one is unknown.
  lemma ResetAllowsSetPin(c: Crypto, s: State, key: KeyFile, q: SetRequest, env: Env, t: TokenRequest, other: Env)
    requires q.present && q.lengthsOk && q.ecdhOk && q.authOk && q.newPin.decrypted && q.newPin.accepted
    ensures var after := Step(c, s, AuthenticatorReset(key)).0;
            SetPin(c, after, q, env).1 == Success && GetToken(c, after, t, other).1 != Success
  {
    hide Wrapped, FreshRecord, TryPin, UseToken;
    SetIff(c, Step(c, s, AuthenticatorReset(key)).0, q, env);
  }
}
