/** What every run of the PIN machine keeps: the guess bound, the soft lock, the device key. */
module ClientPinProofs {
  import opened Bytes
  import opened ClientPin

  // ---------------------------------------------------------------- bounded guessing

  // What a file state allows: its retry count, or 8 while no PIN is set.
  function Allowance(f: Files): nat {
    if f.pin.None? then MAX_RETRIES else f.pin.value.count
  }

  // For whatever the flash may hold, the guesses made since that content last had its count set to 8 and
  // the guesses it still allows do not exceed 8; what is visible now is one of the possibilities.
  ghost predicate Bounded(s: State) {
    && Candidate(s.files, s.guesses) in s.maybe
    && forall i | 0 <= i < |s.maybe| :: Within(s.maybe[i])
  }

  predicate Within(found: Candidate) {
    found.guesses + Allowance(found.files) <= MAX_RETRIES
  }

  lemma NowWithin(s: State)
    requires Bounded(s)
    ensures Within(Candidate(s.files, s.guesses))
  {
    var i :| 0 <= i < |s.maybe| && s.maybe[i] == Candidate(s.files, s.guesses);
  }

  lemma WriteBounded(s: State, f: Files)
    requires forall i | 0 <= i < |s.maybe| :: Within(s.maybe[i])
    requires Within(Candidate(f, s.guesses))
    ensures Bounded(WriteFiles(s, f))
  {
    var t := WriteFiles(s, f);
    assert t.maybe[|s.maybe|] == Candidate(t.files, t.guesses);
  }

  lemma PersistBounded(s: State, rec: PinRecord, sync: Sync)
    requires Bounded(s) && s.guesses + rec.count <= MAX_RETRIES
    ensures Bounded(Persist(s, rec, sync).0)
  {
    WriteBounded(s, s.files.(pin := Some(rec)));
  }

  lemma MismatchBounded(s: State, rec: PinRecord, env: Env)
    requires Bounded(s) && rec.Record? && s.guesses + rec.count <= MAX_RETRIES
    ensures Bounded(Mismatch(s, rec, env).0)
  {
    hide Bounded, Persist;
    var s1 := s.(mismatches := (s.mismatches + 1) % 256);
    RamKeepsBounded(s, s1);
    RamKeepsBounded(s, s.(locked := true));
    PersistBounded(s1, rec.(marker := true), env.sync2);
    var s2 := Persist(s1, rec.(marker := true), env.sync2).0;
    RamKeepsBounded(s2, s2.(locked := true));
  }

  // Once only the decremented record can survive, one more comparison is within its bound.
  lemma CountGuessBounded(s: State)
    requires s.maybe == [Candidate(s.files, s.guesses)] && s.guesses + 1 + Allowance(s.files) <= MAX_RETRIES
    ensures Bounded(CountGuess(s))
  {
    assert CountGuess(s).maybe[0] == Candidate(s.files, s.guesses + 1);
  }

  // The comparison comes only after the decremented count is certain to be in flash.
  lemma TryPinBounded(c: Crypto, s: State, p: Option<PinHash>, env: Env)
    requires Bounded(s) && s.files.pin.Some? && s.files.pin.value.count > 0
    ensures Bounded(TryPin(c, s, p, env).0)
  {
    hide Bounded, Mismatch, Verifies, CountGuess;
    NowWithin(s);
    var stored := s.files.pin.value;
    var rec := stored.(count := stored.count - 1);
    PersistBounded(s, rec, env.sync1);
    var (s1, durable) := Persist(s, rec, env.sync1);
    if durable && rec.Record? {
      CountGuessBounded(s1);
      CountGuessFields(s1);
      var s2 := CountGuess(s1);
      RamKeepsBounded(s2, s2.(misses := s2.misses + 1));
      MismatchBounded(s2.(misses := s2.misses + 1), rec, env);
    }
  }

  lemma CountGuessFields(s: State)
    ensures CountGuess(s) == s.(guesses := s.guesses + 1, maybe := CountGuess(s).maybe)
  {
  }

  // Writing the key file, or a record with count 8 that starts a new series, is harmless.
  lemma WriteKeyBounded(s: State, key: KeyFile)
    requires Bounded(s)
    ensures Bounded(WriteKey(s, key))
  {
    NowWithin(s);
    WriteBounded(s, s.files.(key := key));
  }

  lemma FreshRecordBounded(c: Crypto, s: State, p: PinHash, codePoints: nat)
    requires Bounded(s)
    ensures Bounded(WriteFresh(s, FreshRecord(c, p, codePoints)))
  {
    WriteBounded(s.(guesses := 0), s.files.(pin := Some(FreshRecord(c, p, codePoints))));
  }

  lemma WrapKeyBounded(c: Crypto, s: State, p: PinHash, nonce: nat, stray: byte)
    requires Bounded(s)
    ensures Bounded(WrapKey(c, s, p, nonce, stray))
  {
    hide Bounded, WriteKey;
    var key := Wrapped(c, c.session(p), s.files.key, nonce, stray);
    var s1 := s.(session := c.session(p), unlocked := s.unlocked || key != s.files.key);
    RamKeepsBounded(s, s1);
    WriteKeyBounded(s1, key);
  }

  lemma UpgradeBounded(c: Crypto, s: State, rec: PinRecord, p: PinHash, env: Env)
    requires Bounded(s) && rec.Record?
    ensures Bounded(Upgrade(c, s, rec, p, env).0)
  {
    hide Bounded, WriteKey;
    var session := c.legacySession(p);
    var key := OpenKey(c, session, s.files.key);
    var s0 := s.(session := session, unlocked := s.unlocked || (key.Some? && IsWrapped(s.files.key)));
    RamKeepsBounded(s, s0);
    WriteKeyBounded(s0, Rewrapped(c, session, s.files.key, env.nonces(0)));
    if key.Some? {
      WriteKeyBounded(WriteKey(s0, Rewrapped(c, session, s.files.key, env.nonces(0))), Unwrapped(c, key.value));
    }
  }

  lemma RamKeepsBounded(s: State, t: State)
    requires Bounded(s) && t.files == s.files && t.maybe == s.maybe && t.guesses == s.guesses
    ensures Bounded(t)
  {
  }

  lemma UseTokenBounded(c: Crypto, s: State, rec: PinRecord, p: PinHash, env: Env)
    requires Bounded(s) && rec.Record?
    ensures Bounded(UseToken(c, s, rec, p, env).0)
  {
    hide Bounded, WriteKey, WriteFresh, Upgrade, WrapKey;
    UpgradeBounded(c, s, rec, p, env);
    var (s1, upgraded) := Upgrade(c, s, rec, p, env);
    if upgraded {
      WrapKeyBounded(c, s1, p, env.nonces(1), env.stray);
      var s2 := WrapKey(c, s1, p, env.nonces(1), env.stray);
      var key := OpenKey(c, s2.session, s2.files.key);
      WriteKeyBounded(s2, Rewrapped(c, s2.session, s2.files.key, env.nonces(2)));
      var s3 := WriteKey(s2, Rewrapped(c, s2.session, s2.files.key, env.nonces(2)));
      RamKeepsBounded(s3, s3.(unlocked := key.Some?));
      FreshRecordBounded(c, s3.(unlocked := key.Some?), p, rec.codePoints);
      var s4 := WriteFresh(s3.(unlocked := key.Some?), FreshRecord(c, p, rec.codePoints));
      RamKeepsBounded(s4, s4.(mismatches := 0, misses := 0));
      RamKeepsBounded(s4, s4.(mismatches := 0, misses := 0, locked := false));
    }
  }

  lemma ReplacePinBounded(c: Crypto, s: State, rec: PinRecord, p: PinHash, n: NewPin, env: Env)
    requires Bounded(s) && rec.Record?
    ensures Bounded(ReplacePin(c, s, rec, p, n, env).0)
  {
    hide Bounded, WriteFresh, Upgrade, WrapKey, Install;
    UpgradeBounded(c, s, rec, p, env);
    var (s1, upgraded) := Upgrade(c, s, rec, p, env);
    if upgraded {
      FreshRecordBounded(c, s1, p, rec.codePoints);
      var s2 := WriteFresh(s1, FreshRecord(c, p, rec.codePoints));
      WrapKeyBounded(c, s2, p, env.nonces(1), env.stray);
      RamKeepsBounded(WrapKey(c, s2, p, env.nonces(1), env.stray), Restored(c, s1, p, rec.codePoints, env));
      InstallBounded(c, Restored(c, s1, p, rec.codePoints, env), p, n, env);
    }
  }

  lemma InstallBounded(c: Crypto, s: State, p: PinHash, n: NewPin, env: Env)
    requires Bounded(s)
    ensures Bounded(Install(c, s, p, n, env).0)
  {
    hide Bounded, WriteKey, WriteFresh, WrapKey;
    var key := OpenKey(c, s.session, s.files.key);
    WriteKeyBounded(s, Rewrapped(c, s.session, s.files.key, env.nonces(2)));
    if key.Some? {
      var s1 := WriteKey(s, Rewrapped(c, s.session, s.files.key, env.nonces(2)));
      var s1' := s1.(unlocked := s1.unlocked || IsWrapped(s.files.key));
      RamKeepsBounded(s1, s1');
      WriteKeyBounded(s1', Unwrapped(c, key.value));
      WrapKeyBounded(c, WriteKey(s1', Unwrapped(c, key.value)), n.hash, env.nonces(3), env.stray);
      var s2 := Rekeyed(c, s1', n.hash, env, key.value);
      FreshRecordBounded(c, s2, n.hash, n.codePoints);
      var s3 := WriteFresh(s2, FreshRecord(c, n.hash, n.codePoints));
      RamKeepsBounded(s3, s3.(locked := false));
    }
  }

  lemma SetPinBounded(c: Crypto, s: State, q: SetRequest, env: Env)
    requires Bounded(s)
    ensures Bounded(SetPin(c, s, q, env).0)
  {
    hide Bounded, WriteFresh, WrapKey;
    FreshRecordBounded(c, s, q.newPin.hash, q.newPin.codePoints);
    var s1 := WriteFresh(s, FreshRecord(c, q.newPin.hash, q.newPin.codePoints));
    WrapKeyBounded(c, s1, q.newPin.hash, env.nonces(0), env.stray);
    var s2 := WrapKey(c, s1, q.newPin.hash, env.nonces(0), env.stray);
    RamKeepsBounded(s2, s2.(mismatches := 0, misses := 0, locked := false));
  }

  lemma CommandBounded(c: Crypto, s: State, e: Event)
    requires Bounded(s) && (e.GetTokenCmd? || e.ChangePinCmd? || e.SetPinCmd?)
    ensures Bounded(Step(c, s, e).0)
  {
    hide Bounded, TryPin, UseToken, ReplacePin, SetPin;
    if e.SetPinCmd? {
      SetPinBounded(c, s, e.request, e.env);
    } else if s.files.pin.Some? && s.files.pin.value.count > 0 {
      var p := if e.GetTokenCmd? then e.ask.pin else e.change.pin;
      TryPinBounded(c, s, p, e.env);
      var (s1, attempt) := TryPin(c, s, p, e.env);
      TryPinCorrect(c, s, p, e.env);
      if attempt.Correct? {
        if e.GetTokenCmd? {
          UseTokenBounded(c, s1, attempt.rec, p.value, e.env);
        } else {
          ReplacePinBounded(c, s1, attempt.rec, p.value, e.change.newPin, e.env);
        }
      }
    }
  }

  lemma StepBounded(c: Crypto, s: State, e: Event)
    requires Bounded(s)
    ensures Bounded(Step(c, s, e).0)
  {
    match e
    case PowerLoss(i) => NowWithin(s);
    case InitFido =>
    case AuthenticatorReset(key) =>
      var t := WriteFiles(s.(guesses := 0), Files(None, key));
      WriteBounded(s.(guesses := 0), Files(None, key));
      RamKeepsBounded(t, t.(locked := false, unlocked := false));
    case _ => CommandBounded(c, s, e);
  }

  // What an attempt may leave in the PIN file: the old record, or the decremented one, perhaps with the marker.
  predicate PinTried(f: Files, g: Files)
    requires f.pin.Some? && f.pin.value.count > 0
  {
    var stored := f.pin.value;
    var rec := stored.(count := stored.count - 1);
    || g == f
    || (stored.Record? && (g == f.(pin := Some(rec)) || g == f.(pin := Some(rec.(marker := true)))))
  }

  lemma MismatchFiles(s: State, rec: PinRecord, env: Env)
    requires rec.Record?
    ensures var t := Mismatch(s, rec, env).0;
            t.files == s.files || t.files == s.files.(pin := Some(rec.(marker := true)))
  {
  }

  lemma TryPinFiles(c: Crypto, s: State, p: Option<PinHash>, env: Env)
    requires s.files.pin.Some? && s.files.pin.value.count > 0
    ensures PinTried(s.files, TryPin(c, s, p, env).0.files)
  {
    hide Verifies, Mismatch;
    var stored := s.files.pin.value;
    if stored.Record? {
      var rec := stored.(count := stored.count - 1);
      var s2 := CountGuess(Persist(s, rec, env.sync1).0);
      MismatchFiles(s2.(misses := s2.misses + 1), rec, env);
    }
  }

  // A correct attempt: the record was decremented durably and the PIN verifies.
  lemma TryPinCorrect(c: Crypto, s: State, p: Option<PinHash>, env: Env)
    requires s.files.pin.Some? && s.files.pin.value.count > 0
    ensures var (s1, attempt) := TryPin(c, s, p, env);
            attempt.Correct? ==>
              && p.Some? && attempt.rec.Record? && Verifies(c, attempt.rec, p.value) && !s.locked
              && s1 == s.(files := s.files.(pin := Some(attempt.rec)), maybe := s1.maybe, guesses := s.guesses + 1)
              && s1.maybe == [Candidate(s1.files, s1.guesses)]
              && attempt.rec == s.files.pin.value.(count := s.files.pin.value.count - 1)
  {
  }

  // A token request whose comparison succeeded and whose new record never reached the flash: the comparison
  // still counts, and so does the try it cost.
  lemma LostResetKeepsGuess(c: Crypto, s: State, q: TokenRequest, env: Env)
    requires s.files.pin.Some? && s.files.pin.value.count > 0 && q.present && q.permitted && q.ecdhOk
    requires TryPin(c, s, q.pin, env).1.Correct?
    ensures var stored := s.files.pin.value;
            var t := Step(c, GetToken(c, s, q, env).0, PowerLoss(0)).0;
            && t.guesses == s.guesses + 1 && t.files.pin == Some(stored.(count := stored.count - 1))
            && t.files.key == s.files.key
  {
    hide TryPin, UseToken;
    TryPinCorrect(c, s, q.pin, env);
    var (s1, attempt) := TryPin(c, s, q.pin, env);
    UseTokenExtends(c, s1, attempt.rec, q.pin.value, env);
    assert GetToken(c, s, q, env).0.maybe[0] == s1.maybe[0];
  }

  lemma UseTokenExtends(c: Crypto, s: State, rec: PinRecord, p: PinHash, env: Env)
    requires rec.Record? && s.maybe != []
    ensures UseToken(c, s, rec, p, env).0.maybe != [] && UseToken(c, s, rec, p, env).0.maybe[0] == s.maybe[0]
  {
    hide WriteKey, OpenKey, Rewrapped, Wrapped, FreshRecord, Upgrade;
    UpgradeExtends(c, s, rec, p, env);
    var s1 := Upgrade(c, s, rec, p, env).0;
    var key1 := Wrapped(c, c.session(p), s1.files.key, env.nonces(1), env.stray);
    WriteKeyExtends(s1.(session := c.session(p), unlocked := s1.unlocked || key1 != s1.files.key), key1);
    var s2 := WrapKey(c, s1, p, env.nonces(1), env.stray);
    WriteKeyExtends(s2, Rewrapped(c, s2.session, s2.files.key, env.nonces(2)));
  }

  lemma UpgradeExtends(c: Crypto, s: State, rec: PinRecord, p: PinHash, env: Env)
    requires rec.Record? && s.maybe != []
    ensures Upgrade(c, s, rec, p, env).0.maybe != [] && Upgrade(c, s, rec, p, env).0.maybe[0] == s.maybe[0]
  {
  }

  lemma WriteKeyExtends(s: State, key: KeyFile)
    requires s.maybe != []
    ensures WriteKey(s, key).maybe != [] && WriteKey(s, key).maybe[0] == s.maybe[0]
  {
  }

  // In every run, with power lost at any point, the PIN comparisons since the retry count was last set to
  // 8 in what the flash still holds never exceed 8 minus the stored count.
  lemma {:induction false} BoundedGuessing(c: Crypto, s: State, events: seq<Event>)
    requires Bounded(s)
    ensures Bounded(Run(c, s, events))
    ensures var t := Run(c, s, events); t.guesses <= MAX_RETRIES - Allowance(t.files)
    decreases |events|
  {
    if events == [] {
      NowWithin(s);
    } else {
      StepBounded(c, s, events[0]);
      BoundedGuessing(c, Step(c, s, events[0]).0, events[1..]);
    }
  }

  // ---------------------------------------------------------------- blocked

  ghost predicate Blocked(s: State) {
    && Spent(s.files)
    && forall i | 0 <= i < |s.maybe| :: Spent(s.maybe[i].files)
  }

  predicate Spent(f: Files) {
    f.pin.Some? && f.pin.value.count == 0
  }

  // A stored count of 0 stays 0, and nothing succeeds, until the authenticator is reset.
  lemma {:induction false} BlockedUntilReset(c: Crypto, s: State, events: seq<Event>)
    requires Blocked(s) && forall i | 0 <= i < |events| :: !events[i].AuthenticatorReset?
    ensures Blocked(Run(c, s, events))
    ensures forall e: Event | !e.AuthenticatorReset? && !e.PowerLoss? && !e.InitFido? :: Step(c, s, e).1 != Success
    decreases |events|
  {
    if events != [] {
      assert Blocked(Step(c, s, events[0]).0);
      BlockedUntilReset(c, Step(c, s, events[0]).0, events[1..]);
    }
  }

  // ---------------------------------------------------------------- soft lock

  predicate Marked(f: Files) {
    f.pin.Some? && f.pin.value.Record? && f.pin.value.marker
  }

  predicate Unmarked(f: Files) {
    f.pin.Some? && f.pin.value.Record? && !f.pin.value.marker && f.pin.value.count > 0
  }

  // The 8-bit mismatch counter is the number of failed comparisons since power-up or
  // success until the marker is set, and the soft lock implies that a PIN is set.
  ghost predicate Counted(s: State) {
    && (s.files.pin.Some? ==> s.misses <= s.guesses)
    && (Unmarked(s.files) ==> s.mismatches == s.misses)
    && (s.locked ==> s.files.pin.Some?)
  }

  // After a correct comparison a command either leaves the PIN file and all counters alone
  // or stores a fresh record and clears the counters.
  ghost predicate Settled(s: State, t: State) {
    SamePin(s, t) || (t.files.pin.Some? && t.mismatches == t.misses == t.guesses == 0 && (t.locked ==> s.locked))
  }

  lemma UseTokenSettles(c: Crypto, s: State, rec: PinRecord, p: PinHash, env: Env)
    requires rec.Record?
    ensures Settled(s, UseToken(c, s, rec, p, env).0)
  {
  }

  lemma ReplacePinSettles(c: Crypto, s: State, rec: PinRecord, p: PinHash, n: NewPin, env: Env)
    requires rec.Record?
    ensures Settled(s, ReplacePin(c, s, rec, p, n, env).0)
  {
  }

  lemma TryPinCounted(c: Crypto, s: State, p: Option<PinHash>, env: Env)
    requires Bounded(s) && Counted(s) && s.files.pin.Some? && s.files.pin.value.count > 0
    ensures Counted(TryPin(c, s, p, env).0)
  {
    hide Bounded, Verifies, Mismatch, CountGuess;
    NowWithin(s);
    var stored := s.files.pin.value;
    if stored.Record? {
      var rec := stored.(count := stored.count - 1);
      var s1 := Persist(s, rec, env.sync1).0;
      CountGuessFields(s1);
      var s2 := CountGuess(s1);
      if env.sync1.Synced? {
        MismatchCounted(s2.(misses := s2.misses + 1), rec, env);
      }
    }
  }

  lemma MismatchCounted(s: State, rec: PinRecord, env: Env)
    requires rec.Record? && s.files.pin == Some(rec) && s.misses <= s.guesses <= MAX_RETRIES
    requires !rec.marker ==> s.mismatches + 1 == s.misses
    ensures Counted(Mismatch(s, rec, env).0)
  {
  }

  lemma StepCounted(c: Crypto, s: State, e: Event)
    requires Bounded(s) && Counted(s)
    ensures Counted(Step(c, s, e).0)
  {
    hide Bounded;
    hide TryPin;
    hide UseToken;
    hide ReplacePin;
    hide WrapKey;
    if (e.GetTokenCmd? || e.ChangePinCmd?) && s.files.pin.Some? && s.files.pin.value.count > 0 {
      var p := if e.GetTokenCmd? then e.ask.pin else e.change.pin;
      TryPinCounted(c, s, p, e.env);
      TryPinCorrect(c, s, p, e.env);
      var (s1, attempt) := TryPin(c, s, p, e.env);
      if attempt.Correct? {
        if e.GetTokenCmd? {
          UseTokenSettles(c, s1, attempt.rec, p.value, e.env);
        } else {
          ReplacePinSettles(c, s1, attempt.rec, p.value, e.change.newPin, e.env);
        }
      }
    }
  }

  // Both invariants hold in every state a powered-up device can reach.
  lemma {:induction false} RunCounted(c: Crypto, s: State, events: seq<Event>)
    requires Bounded(s) && Counted(s)
    ensures Bounded(Run(c, s, events)) && Counted(Run(c, s, events))
    decreases |events|
  {
    if events != [] {
      StepBounded(c, s, events[0]);
      StepCounted(c, s, events[0]);
      RunCounted(c, Step(c, s, events[0]).0, events[1..]);
    }
  }

  // The event compares a PIN and finds it wrong, and the flash works.
  predicate Misses(c: Crypto, s: State, e: Event) {
    && s.files.pin.Some? && s.files.pin.value.Record? && s.files.pin.value.count > 0
    && match e
       case GetTokenCmd(q, env) =>
         q.present && q.permitted && q.ecdhOk && q.pin.Some? && env.sync1.Synced? && env.sync2.Synced?
         && !Verifies(c, s.files.pin.value, q.pin.value)
       case ChangePinCmd(q, env) =>
         q.present && q.lengthsOk && q.ecdhOk && q.authOk && q.pin.Some? && env.sync1.Synced? && env.sync2.Synced?
         && !s.locked && !Verifies(c, s.files.pin.value, q.pin.value)
       case _ => false
  }

  // A wrong PIN locks if and only if retries are left and the marker was already set or it
  // is the third mismatch since power-up or success; the marker is then in flash for sure.
  lemma MismatchLocksIff(c: Crypto, s: State, e: Event)
    requires Bounded(s) && Counted(s) && Misses(c, s, e)
    ensures var stored := s.files.pin.value;
            var (t, status) := Step(c, s, e);
            var locks := stored.count > 1 && (stored.marker || s.misses >= 2);
            && (t.locked <==> s.locked || locks)
            && (status == PinAuthBlocked <==> locks) && (status == PinBlocked <==> stored.count == 1)
            && (locks ==> forall i | 0 <= i < |t.maybe| :: Marked(t.maybe[i].files))
            && t.files.pin == Some(stored.(count := stored.count - 1, marker := stored.marker || locks))
  {
    hide Bounded, Step, Mismatch, CountGuess, Misses;
    NowWithin(s);
    MissIsMismatch(c, s, e);
    var rec := s.files.pin.value.(count := s.files.pin.value.count - 1);
    MismatchOutcome(Missed(s, rec), rec, e.env);
  }

  // The state in which the counters are compared.
  function Missed(s: State, rec: PinRecord): State {
    var s1 := CountGuess(Persist(s, rec, Synced).0);
    s1.(misses := s1.misses + 1)
  }

  lemma MissIsMismatch(c: Crypto, s: State, e: Event)
    requires Misses(c, s, e)
    ensures (e.GetTokenCmd? || e.ChangePinCmd?) && e.env.sync2.Synced?
    ensures s.files.pin.Some? && s.files.pin.value.Record? && s.files.pin.value.count > 0
    ensures var rec := s.files.pin.value.(count := s.files.pin.value.count - 1);
            var (t, attempt) := Mismatch(Missed(s, rec), rec, e.env);
            && attempt.Refused? && Step(c, s, e) == (t, attempt.status)
            && Missed(s, rec) == s.(files := s.files.(pin := Some(rec)), maybe := Missed(s, rec).maybe,
                                    guesses := s.guesses + 1, misses := s.misses + 1)
            && |Missed(s, rec).maybe| == 1 && Missed(s, rec).maybe[0].files == Missed(s, rec).files
  {
    hide Verifies, CountGuess, Mismatch;
    var rec := s.files.pin.value.(count := s.files.pin.value.count - 1);
    CountGuessFields(Persist(s, rec, Synced).0);
    SameVerdict(c, s.files.pin.value, rec);
    MismatchRefuses(Missed(s, rec), rec, e.env);
  }

  lemma SameVerdict(c: Crypto, rec: PinRecord, rec': PinRecord)
    requires rec.Record? && rec' == rec.(count := rec'.count)
    ensures forall p: PinHash :: Verifies(c, rec, p) == Verifies(c, rec', p)
  {
  }

  lemma MismatchRefuses(s: State, rec: PinRecord, env: Env)
    requires rec.Record?
    ensures Mismatch(s, rec, env).1.Refused?
  {
  }

  // Once the decremented record is certain to be in flash and the flash works.
  lemma MismatchOutcome(s: State, rec: PinRecord, env: Env)
    requires rec.Record? && s.files.pin == Some(rec) && env.sync2.Synced? && (!rec.marker ==> s.mismatches < 255)
    requires |s.maybe| == 1 && s.maybe[0].files == s.files
    ensures var (t, attempt) := Mismatch(s, rec, env);
            var locks := rec.count > 0 && (rec.marker || s.mismatches >= 2);
            && attempt.Refused? && (t.locked <==> s.locked || locks)
            && attempt.status == (if rec.count == 0 then PinBlocked else if locks then PinAuthBlocked else PinInvalid)
            && (locks ==> forall i | 0 <= i < |t.maybe| :: Marked(t.maybe[i].files))
            && t.files.pin == Some(rec.(marker := rec.marker || locks))
  {
  }

  // The same key file and a PIN record that accepts the same PINs.
  predicate SameSecret(f: Files, g: Files) {
    && f.key == g.key && f.pin.Some? && g.pin.Some?
    && (f.pin.value.Record? <==> g.pin.value.Record?)
    && (f.pin.value.Record? ==>
          && f.pin.value.verifier == g.pin.value.verifier && f.pin.value.legacy == g.pin.value.legacy
          && f.pin.value.codePoints == g.pin.value.codePoints)
  }

  // Everything the flash may hold in t it could hold in s, or it has the secrets that are visible in s.
  ghost predicate NothingNew(s: State, t: State) {
    forall i | 0 <= i < |t.maybe| ::
      SameSecret(s.files, t.maybe[i].files) || exists j :: 0 <= j < |s.maybe| && s.maybe[j].files == t.maybe[i].files
  }

  // Once locked, no command succeeds, the PIN and the device key stay in everything that may survive, and
  // the lock stays, until power-up, init_fido or reset.
  lemma {:induction false} LockedUntilInit(c: Crypto, s: State, events: seq<Event>)
    requires s.locked && s.files.pin.Some?
    requires forall i | 0 <= i < |events| ::
               !events[i].PowerLoss? && !events[i].InitFido? && !events[i].AuthenticatorReset?
    ensures var t := Run(c, s, events);
            t.locked && SameSecret(s.files, t.files) && NothingNew(s, t)
    ensures forall e: Event | !e.PowerLoss? && !e.InitFido? && !e.AuthenticatorReset? :: Step(c, s, e).1 != Success
    decreases |events|
  {
    if events != [] {
      LockedStep(c, s, events[0]);
      var s1 := Step(c, s, events[0]).0;
      LockedUntilInit(c, s1, events[1..]);
      NothingNewTrans(s, s1, Run(c, s, events));
    }
    forall e: Event | !e.PowerLoss? && !e.InitFido? && !e.AuthenticatorReset?
      ensures Step(c, s, e).1 != Success
    {
      LockedStep(c, s, e);
    }
  }

  lemma NothingNewTrans(s: State, t: State, u: State)
    requires SameSecret(s.files, t.files) && NothingNew(s, t) && NothingNew(t, u)
    ensures NothingNew(s, u)
  {
    forall i | 0 <= i < |u.maybe|
      ensures SameSecret(s.files, u.maybe[i].files) ||
                exists j :: 0 <= j < |s.maybe| && s.maybe[j].files == u.maybe[i].files
    {
      if !SameSecret(t.files, u.maybe[i].files) {
        var k :| 0 <= k < |t.maybe| && t.maybe[k].files == u.maybe[i].files;
      }
    }
  }

  lemma LockedStep(c: Crypto, s: State, e: Event)
    requires s.locked && s.files.pin.Some? && !e.PowerLoss? && !e.InitFido? && !e.AuthenticatorReset?
    ensures var (t, status) := Step(c, s, e);
            t.locked && status != Success && SameSecret(s.files, t.files) && NothingNew(s, t)
  {
    hide UseToken, ReplacePin, TryPin, NothingNew;
    NothingNewSelf(s);
    if e.GetTokenCmd? && s.files.pin.value.count > 0 {
      LockedAttempt(c, s, e.ask.pin, e.env);
    }
  }

  lemma NothingNewSelf(s: State)
    ensures NothingNew(s, s)
  {
  }

  lemma LockedAttempt(c: Crypto, s: State, p: Option<PinHash>, env: Env)
    requires s.locked && s.files.pin.Some? && s.files.pin.value.count > 0
    ensures var (t, attempt) := TryPin(c, s, p, env);
            && attempt.Refused? && attempt.status != Success
            && t.locked && SameSecret(s.files, t.files) && NothingNew(s, t)
  {
    hide NothingNew, Mismatch, Persist, Verifies;
    var stored := s.files.pin.value;
    NothingNewSelf(s);
    if stored.Record? {
      var rec := stored.(count := stored.count - 1);
      PersistAddsNothing(s, s, rec, env.sync1);
      var s1 := Persist(s, rec, env.sync1).0;
      var s2 := CountGuess(s1);
      SameContents(s, s1, s2);
      SameContents(s, s1, s2.(misses := s2.misses + 1));
      PersistFiles(s, rec, env.sync1);
      if s1.files == s.files.(pin := Some(rec)) {
        MismatchAddsNothing(s, s2.(misses := s2.misses + 1), rec, env);
      }
    }
  }

  lemma PersistFiles(s: State, rec: PinRecord, sync: Sync)
    ensures var (t, durable) := Persist(s, rec, sync);
            (durable ==> t.files == s.files.(pin := Some(rec))) && t.locked == s.locked
  {
  }

  lemma PersistAddsNothing(s: State, t: State, rec: PinRecord, sync: Sync)
    requires NothingNew(s, t) && SameSecret(s.files, t.files) && SameSecret(s.files, t.files.(pin := Some(rec)))
    ensures var u := Persist(t, rec, sync).0;
            NothingNew(s, u) && SameSecret(s.files, u.files)
  {
    hide SameSecret;
  }

  lemma SameContents(s: State, t: State, u: State)
    requires NothingNew(s, t) && |t.maybe| == |u.maybe|
    requires forall i | 0 <= i < |t.maybe| :: t.maybe[i].files == u.maybe[i].files
    ensures NothingNew(s, u)
  {
    hide SameSecret;
  }

  lemma MismatchAddsNothing(s: State, t: State, rec: PinRecord, env: Env)
    requires NothingNew(s, t) && t.locked && rec.Record? && t.files.pin == Some(rec) && SameSecret(s.files, t.files)
    ensures var (u, attempt) := Mismatch(t, rec, env);
            && attempt.Refused? && attempt.status != Success
            && u.locked && SameSecret(s.files, u.files) && NothingNew(s, u)
  {
    hide NothingNew, Persist;
    var t1 := t.(mismatches := (t.mismatches + 1) % 256);
    SameContents(s, t, t1);
    SameContents(s, t, t.(locked := true));
    PersistAddsNothing(s, t1, rec.(marker := true), env.sync2);
    PersistFiles(t1, rec.(marker := true), env.sync2);
    var u := Persist(t1, rec.(marker := true), env.sync2).0;
    SameContents(s, u, u.(locked := true));
  }

  // Only a correct PIN, or the authenticator reset, can take a marker out of flash.
  lemma OnlyCorrectPinClearsMarker(c: Crypto, s: State, e: Event)
    requires Marked(s.files) && forall i | 0 <= i < |s.maybe| :: Marked(s.maybe[i].files)
    requires !e.AuthenticatorReset?
    ensures var t := Step(c, s, e).0;
            || (Marked(t.files) && forall i | 0 <= i < |t.maybe| :: Marked(t.maybe[i].files))
            || exists p: PinHash :: Verifies(c, s.files.pin.value, p) && !s.locked &&
                 ((e.GetTokenCmd? && e.ask.pin == Some(p)) || (e.ChangePinCmd? && e.change.pin == Some(p)))
  {
    hide UseToken;
    hide ReplacePin;
    if (e.GetTokenCmd? || e.ChangePinCmd?) && s.files.pin.value.count > 0 {
      var p := if e.GetTokenCmd? then e.ask.pin else e.change.pin;
      TryPinKeepsMarker(c, s, p, e.env);
      TryPinCorrect(c, s, p, e.env);
      hide TryPin;
      var (s1, attempt) := TryPin(c, s, p, e.env);
      if attempt.Correct? {
        assert Verifies(c, s.files.pin.value, p.value);
      }
    }
  }

  lemma TryPinKeepsMarker(c: Crypto, s: State, p: Option<PinHash>, env: Env)
    requires Marked(s.files) && s.files.pin.value.count > 0 && forall i | 0 <= i < |s.maybe| :: Marked(s.maybe[i].files)
    ensures var t := TryPin(c, s, p, env).0;
            Marked(t.files) && forall i | 0 <= i < |t.maybe| :: Marked(t.maybe[i].files)
  {
    hide Verifies, Mismatch, Persist;
    var stored := s.files.pin.value;
    var rec := stored.(count := stored.count - 1);
    PersistKeepsMarker(s, rec, env.sync1);
    var s2 := CountGuess(Persist(s, rec, env.sync1).0);
    MarkedMismatch(s2.(misses := s2.misses + 1), rec, env);
  }

  lemma PersistKeepsMarker(s: State, rec: PinRecord, sync: Sync)
    requires Marked(s.files) && rec.Record? && rec.marker && forall i | 0 <= i < |s.maybe| :: Marked(s.maybe[i].files)
    ensures var t := Persist(s, rec, sync).0;
            Marked(t.files) && forall i | 0 <= i < |t.maybe| :: Marked(t.maybe[i].files)
  {
  }

  lemma MarkedMismatch(s: State, rec: PinRecord, env: Env)
    requires rec.Record? && rec.marker
    ensures var t := Mismatch(s, rec, env).0;
            t == s.(locked := t.locked)
  {
  }
}
