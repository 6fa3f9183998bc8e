/** What every fuse plan keeps (firmware.py): bits are only added, Secure Boot never wins the vote before
    the board is hardened and trusts a key, a trusted key stays, and a locked board plans nothing. */
module FuseSafety {
  import opened Bytes
  import opened FusePlan
  import opened FuseResume

  // ---------------------------------------------------------------- what one write can be

  predicate Revoking(flags: seq<Row>, slot: nat) {
    exists i | 0 <= i < |flags| :: slot + 8 in flags[i]
  }

  predicate AllHold(rows: seq<Row>, bits: Row) {
    forall i | 0 <= i < |rows| :: bits <= rows[i]
  }

  predicate RawAdds(o: Otp, w: Write, reg: Register, bits: Row) {
    && w.RawWrite? && w.register == reg
    && var rows := Rows(o, reg);
       w.index < |rows| && w.value == rows[w.index] + bits
  }

  function Rows(o: Otp, reg: Register): seq<Row> {
    match reg
    case Critical => o.critical
    case Flags => o.flags
    case Locks => o.locks
  }

  // The conditions under which each stage may make the write `w` next.
  ghost predicate Permitted(o: Otp, action: Action, key: seq<Half>, slot: nat, w: Write)
    requires WellFormed(o) && |key| == 16 && slot < 4
  {
    match action
    case LoadKey =>
      && !Revoking(o.flags, slot)
      && (|| (w.WordWrite? && 16 * slot <= w.index < 16 * slot + 16 && o.words[w.index].Blank?
              && w.word == key[w.index - 16 * slot] != 0)
          || (RawAdds(o, w, Flags, {slot}) && Stores(o.words, slot, key)))
    case Harden => RawAdds(o, w, Critical, HARDEN_BITS)
    case Enable =>
      && RawAdds(o, w, Critical, {0}) && AllHold(o.critical, HARDEN_BITS)
      && exists m: nat :: m < 4 && Matching(o.words, o.flags, key, m) && AllHold(o.flags, {m})
    case Lock =>
      && AllHold(o.critical, LOCKABLE_BITS)
      && exists m: nat :: m < 4 && TrustedSlots(o.flags) == {m} &&
                     (RawAdds(o, w, Flags, Revocation({m})) || RawAdds(o, w, Locks, BOOT_LOCK))
    case Unknown => false
  }

  lemma LoadKeyPermitted(o: Otp, key: seq<Half>, slot: nat)
    requires WellFormed(o) && |key| == 16 && slot < 4
    requires StagePlan(o, LoadKey, key, slot).Ok? && StagePlan(o, LoadKey, key, slot).value != []
    ensures Permitted(o, LoadKey, key, slot, StagePlan(o, LoadKey, key, slot).value[0])
  {
    LoadKeyStart(o, key, slot);
    var w := StagePlan(o, LoadKey, key, slot).value[0];
    if w.RawWrite? {
      WordWritesDone(o.words, slot, key, 0);
      assert RawAdds(o, w, Flags, {slot});
      assert Stores(o.words, slot, key);
    }
  }

  lemma HardenPermitted(o: Otp, key: seq<Half>, slot: nat)
    requires WellFormed(o) && |key| == 16 && slot < 4
    requires StagePlan(o, Harden, key, slot).Ok? && StagePlan(o, Harden, key, slot).value != []
    ensures Permitted(o, Harden, key, slot, StagePlan(o, Harden, key, slot).value[0])
  {
    hide Matches, RawWrites;
    RawWritesResume(Critical, o.critical, HARDEN_BITS, 0);
  }

  lemma EnablePermitted(o: Otp, key: seq<Half>, slot: nat)
    requires WellFormed(o) && |key| == 16 && slot < 4
    requires StagePlan(o, Enable, key, slot).Ok? && StagePlan(o, Enable, key, slot).value != []
    ensures Permitted(o, Enable, key, slot, StagePlan(o, Enable, key, slot).value[0])
  {
    hide Matches, RawWrites, Matching;
    RawWritesResume(Critical, o.critical, {0}, 0);
    var m := Matches(o.words, o.flags, key)[0];
    assert m in Matches(o.words, o.flags, key);
    assert AllHold(o.flags, {m});
  }

  lemma KeyedPermitted(o: Otp, action: Action, key: seq<Half>, slot: nat)
    requires WellFormed(o) && |key| == 16 && slot < 4 && action != LoadKey
    requires StagePlan(o, action, key, slot).Ok? && StagePlan(o, action, key, slot).value != []
    ensures Permitted(o, action, key, slot, StagePlan(o, action, key, slot).value[0])
  {
    if action == Lock {
      var m := Matches(o.words, o.flags, key)[0];
      assert m in Matches(o.words, o.flags, key);
      hide StagePlan, Permitted;
      LockPermitted(o, key, slot, m);
    } else {
      KnownAction(o, action, key, slot);
      hide StagePlan, Permitted;
      if action == Harden {
        HardenPermitted(o, key, slot);
      } else {
        EnablePermitted(o, key, slot);
      }
    }
  }

  lemma KnownAction(o: Otp, action: Action, key: seq<Half>, slot: nat)
    requires WellFormed(o) && |key| == 16 && slot < 4 && StagePlan(o, action, key, slot).Ok?
    ensures action != Unknown
  {
  }

  lemma LockPermitted(o: Otp, key: seq<Half>, slot: nat, m: nat)
    requires WellFormed(o) && |key| == 16 && slot < 4 && m < 4 && TrustedSlots(o.flags) == {m}
    requires StagePlan(o, Lock, key, slot).Ok? && StagePlan(o, Lock, key, slot).value != []
    ensures Permitted(o, Lock, key, slot, StagePlan(o, Lock, key, slot).value[0])
  {
    hide Matches;
    hide WordWrites;
    hide Effective;
    var ws := StagePlan(o, Lock, key, slot).value;
    var flags := RawWrites(Flags, o.flags, Revocation({m}), 0);
    assert ws == flags + LockWrites(o.locks, 0).value;
    assert AllHold(o.critical, LOCKABLE_BITS);
    hide StagePlan;
    if flags != [] {
      RawWritesResume(Flags, o.flags, Revocation({m}), 0);
      assert RawAdds(o, ws[0], Flags, Revocation({m}));
    } else {
      LockWritesResume(o.locks, 0);
      LockWritesShape(o.locks, 0);
      assert RawAdds(o, ws[0], Locks, BOOT_LOCK);
    }
  }

  lemma FirstWritePermitted(o: Otp, action: Action, fp: seq<byte>, slot: int)
    requires WellFormed(o)
    requires SecurityPlan(o, action, fp, slot).Ok? && SecurityPlan(o, action, fp, slot).value != []
    ensures 0 <= slot < 4 && |fp| == 32
    ensures var w := SecurityPlan(o, action, fp, slot).value[0];
            Permitted(o, action, KeyWords(fp), slot, w) && PageOpen(o.locks, w)
  {
    hide StagePlan;
    hide Permitted;
    if action == LoadKey {
      LoadKeyPermitted(o, KeyWords(fp), slot);
    } else {
      KeyedPermitted(o, action, KeyWords(fp), slot);
    }
  }

  // ---------------------------------------------------------------- only adding bits

  // Every raw bit stays programmed and no error-corrected row is written twice.
  ghost predicate Grows(a: Otp, b: Otp) {
    && RowsGrow(a.critical, b.critical) && RowsGrow(a.flags, b.flags) && RowsGrow(a.locks, b.locks)
    && a.keyLocks == b.keyLocks && |a.words| == |b.words|
    && forall i | 0 <= i < |a.words| :: a.words[i] == b.words[i] || (a.words[i].Blank? && b.words[i].Coded?)
  }

  ghost predicate RowsGrow(a: seq<Row>, b: seq<Row>) {
    |a| == |b| && forall i | 0 <= i < |a| :: a[i] <= b[i]
  }

  predicate ReadsBack(o: Otp, w: Write) {
    match w
    case RawWrite(reg, i, v) => i < |Rows(o, reg)| && Rows(o, reg)[i] == v
    case WordWrite(i, v) => i < |o.words| && o.words[i] == Coded(v)
  }

  lemma PermittedWriteGrows(o: Otp, action: Action, key: seq<Half>, slot: nat, w: Write)
    requires WellFormed(o) && |key| == 16 && slot < 4 && Permitted(o, action, key, slot, w)
    ensures Grows(o, Burn(o, w)) && ReadsBack(Burn(o, w), w)
  {
  }

  // ---------------------------------------------------------------- staged boot safety

  predicate NonBlank(key: seq<Half>) {
    exists i | 0 <= i < |key| :: key[i] != 0
  }

  ghost predicate HoldsKey(words: seq<Word>, slot: nat)
    requires slot < 4 && |words| == 64
  {
    exists key: seq<Half> :: Stores(words, slot, key) && NonBlank(key)
  }

  ghost predicate Anchor(o: Otp, m: nat)
    requires WellFormed(o)
  {
    m < 4 && AllHold(o.flags, {m}) && !Revoking(o.flags, m) && HoldsKey(o.words, m)
  }

  predicate BootStarted(critical: seq<Row>) {
    exists i | 0 <= i < |critical| :: 0 in critical[i]
  }

  // Once any copy of the Secure Boot bit is programmed, all hardening bits are, and some
  // slot with a readable key is valid in every copy and revoked in none. Before that,
  // nothing is revoked.
  ghost predicate Safe(o: Otp)
    requires WellFormed(o)
  {
    if BootStarted(o.critical) then AllHold(o.critical, HARDEN_BITS) && exists m: nat :: Anchor(o, m)
    else forall s: nat | s < 4 :: !Revoking(o.flags, s)
  }

  lemma AnchorSurvives(o: Otp, action: Action, key: seq<Half>, slot: nat, w: Write, m: nat)
    requires WellFormed(o) && |key| == 16 && slot < 4 && Permitted(o, action, key, slot, w) && Anchor(o, m)
    ensures Anchor(Burn(o, w), m)
  {
    var after := Burn(o, w);
    PermittedWriteGrows(o, action, key, slot, w);
    if w.RawWrite? && w.register == Flags {
      AnchorIsTrusted(o, m);
      forall i | 0 <= i < 3
        ensures m in after.flags[i] && m + 8 !in after.flags[i]
      {
        assert {m} <= o.flags[i] && m + 8 !in o.flags[i];
      }
    }
    AnchorKeepsItsKey(o, after, m);
  }

  lemma AnchorIsTrusted(o: Otp, m: nat)
    requires WellFormed(o) && Anchor(o, m)
    ensures Trusted(o.flags, m)
  {
    forall i | 0 <= i < 3
      ensures m in o.flags[i]
    {
      assert {m} <= o.flags[i];
    }
    CountBounds(o.flags, m);
    CountBounds(o.flags, m + 8);
  }

  lemma AnchorKeepsItsKey(o: Otp, after: Otp, m: nat)
    requires WellFormed(o) && WellFormed(after) && m < 4 && Grows(o, after) && HoldsKey(o.words, m)
    ensures HoldsKey(after.words, m)
  {
    var key :| Stores(o.words, m, key) && NonBlank(key);
    var key' := seq<Half>(16, i requires 0 <= i < 16 => Read(after.words[16 * m + i]));
    forall i | 0 <= i < 16
      ensures HoldsWord(after.words, m, i, key'[i]) && (key[i] != 0 ==> key'[i] != 0)
    {
      assert HoldsWord(o.words, m, i, key[i]);
    }
    var i :| 0 <= i < 16 && key[i] != 0;
    assert HoldsWord(after.words, m, i, key'[i]) && key'[i] != 0;
    assert Stores(after.words, m, key') && NonBlank(key');
  }

  lemma SafeStep(o: Otp, action: Action, key: seq<Half>, slot: nat, w: Write)
    requires WellFormed(o) && |key| == 16 && slot < 4 && NonBlank(key) && Permitted(o, action, key, slot, w) && Safe(o)
    ensures Safe(Burn(o, w))
  {
    var after := Burn(o, w);
    PermittedWriteGrows(o, action, key, slot, w);
    assert action == Lock ==> LOCKABLE_BITS <= o.critical[0];
    if BootStarted(o.critical) {
      var m: nat :| Anchor(o, m);
      AnchorSurvives(o, action, key, slot, w, m);
      HardeningStays(o.critical, after.critical);
    } else if action == Enable {
      var m: nat :| m < 4 && Matching(o.words, o.flags, key, m) && AllHold(o.flags, {m});
      assert Anchor(o, m);
      AnchorSurvives(o, action, key, slot, w, m);
      HardeningStays(o.critical, after.critical);
    } else {
      forall i | 0 <= i < 8
        ensures 0 !in after.critical[i]
      {
        assert 0 !in o.critical[i];
      }
      forall s: nat | s < 4
        ensures !Revoking(after.flags, s)
      {
        assert !Revoking(o.flags, s);
      }
    }
  }

  lemma HardeningStays(before: seq<Row>, after: seq<Row>)
    requires AllHold(before, HARDEN_BITS) && RowsGrow(before, after)
    ensures AllHold(after, HARDEN_BITS)
  {
  }

  // What the boot ROM sees: Secure Boot never wins the vote without the hardening bits
  // and a trusted slot holding a key.
  lemma SafeMeaning(o: Otp)
    requires WellFormed(o) && Safe(o) && 0 in Vote(o.critical, 3)
    ensures HARDEN_BITS <= Vote(o.critical, 3)
    ensures exists m: nat :: m < 4 && Trusted(o.flags, m) && HoldsKey(o.words, m)
  {
    CountBounds(o.critical, 0);
    forall b | b in HARDEN_BITS
      ensures b in Vote(o.critical, 3)
    {
      forall i | 0 <= i < 8
        ensures b in o.critical[i]
      {
        assert HARDEN_BITS <= o.critical[i];
      }
      CountBounds(o.critical, b);
    }
    var m: nat :| Anchor(o, m);
    AnchorIsTrusted(o, m);
  }

  lemma {:induction false} SafeAlongPlan(o: Otp, action: Action, fp: seq<byte>, slot: int, k: nat)
    requires WellFormed(o) && SecurityPlan(o, action, fp, slot).Ok? && k <= |SecurityPlan(o, action, fp, slot).value|
    ensures var after := BurnAll(o, SecurityPlan(o, action, fp, slot).value[..k]);
            Grows(o, after) && (Safe(o) ==> Safe(after))
    decreases k
  {
    hide StagePlan;
    hide Permitted;
    hide Safe;
    hide PageOpen;
    var ws := SecurityPlan(o, action, fp, slot).value;
    if k > 0 {
      FirstWritePermitted(o, action, fp, slot);
      var next := Burn(o, ws[0]);
      PermittedWriteGrows(o, action, KeyWords(fp), slot, ws[0]);
      if Safe(o) {
        KeyWordsNonBlank(fp);
        SafeStep(o, action, KeyWords(fp), slot, ws[0]);
      }
      ResumeAfterOne(o, action, fp, slot);
      SafeAlongPlan(next, action, fp, slot, k - 1);
      assert ws[..k][1..] == ws[1..][..k - 1];
      GrowsTrans(o, next, BurnAll(o, ws[..k]));
    }
  }

  lemma KeyWordsNonBlank(fp: seq<byte>)
    requires |fp| == 32 && exists i | 0 <= i < 32 :: fp[i] != 0
    ensures NonBlank(KeyWords(fp))
  {
    var i :| 0 <= i < 32 && fp[i] != 0;
    assert KeyWords(fp)[i / 2] != 0;
  }

  lemma GrowsTrans(a: Otp, b: Otp, c: Otp)
    requires Grows(a, b) && Grows(b, c)
    ensures Grows(a, c)
  {
  }

  // ---------------------------------------------------------------- whole runs

  datatype Invocation = Invocation(action: Action, fp: seq<byte>, slot: int, cut: nat)

  // Any sequence of tool invocations, each cut after any number of writes.
  function Run(o: Otp, run: seq<Invocation>): (r: Otp)
    requires WellFormed(o)
    ensures WellFormed(r)
    decreases |run|
  {
    if run == [] then o
    else Run(Session(o, run[0].action, run[0].fp, run[0].slot, run[0].cut), run[1..])
  }

  const BLANK_BOARD: Otp := Otp([{}, {}, {}, {}, {}, {}, {}, {}], [{}, {}, {}], [{}, {}], [{}, {}], seq(64, _ => Blank))

  lemma SessionGrows(o: Otp, v: Invocation)
    requires WellFormed(o)
    ensures var after := Session(o, v.action, v.fp, v.slot, v.cut);
            Grows(o, after) && (Safe(o) ==> Safe(after))
  {
    var plan := SecurityPlan(o, v.action, v.fp, v.slot);
    if plan.Ok? {
      var k := if v.cut < |plan.value| then v.cut else |plan.value|;
      assert plan.value[..|plan.value|] == plan.value;
      SafeAlongPlan(o, v.action, v.fp, v.slot, k);
    }
  }

  lemma {:induction false} RunGrows(o: Otp, run: seq<Invocation>)
    requires WellFormed(o)
    ensures Grows(o, Run(o, run)) && (Safe(o) ==> Safe(Run(o, run)))
    decreases |run|
  {
    if run != [] {
      var next := Session(o, run[0].action, run[0].fp, run[0].slot, run[0].cut);
      SessionGrows(o, run[0]);
      RunGrows(next, run[1..]);
      GrowsTrans(o, next, Run(o, run));
    }
  }

  // Staged boot safety, for every run from a blank board and every interruption point.
  lemma StagedBootSafety(run: seq<Invocation>)
    ensures WellFormed(BLANK_BOARD)
    ensures var o := Run(BLANK_BOARD, run);
            0 in Vote(o.critical, 3) ==>
              && HARDEN_BITS <= Vote(o.critical, 3)
              && exists m: nat :: m < 4 && Trusted(o.flags, m) && HoldsKey(o.words, m)
  {
    BlankBoardIsSafe();
    hide Safe;
    hide Run;
    RunGrows(BLANK_BOARD, run);
    var o := Run(BLANK_BOARD, run);
    if 0 in Vote(o.critical, 3) {
      SafeMeaning(o);
    }
  }

  lemma BlankBoardIsSafe()
    ensures WellFormed(BLANK_BOARD) && Safe(BLANK_BOARD)
  {
  }

  // ---------------------------------------------------------------- loading a key

  // A slot whose valid bit does not yet win the vote cannot start to win it, at any
  // interruption point, before all sixteen words hold the new fingerprint.
  lemma {:induction false} ValidBitComesLast(o: Otp, fp: seq<byte>, slot: int, k: nat)
    requires WellFormed(o) && SecurityPlan(o, LoadKey, fp, slot).Ok?
    requires k <= |SecurityPlan(o, LoadKey, fp, slot).value|
    requires slot !in Vote(o.flags, 2) || Stores(o.words, slot, KeyWords(fp))
    ensures var after := BurnAll(o, SecurityPlan(o, LoadKey, fp, slot).value[..k]);
            slot !in Vote(after.flags, 2) || Stores(after.words, slot, KeyWords(fp))
    decreases k
  {
    hide StagePlan;
    hide PageOpen;
    var ws := SecurityPlan(o, LoadKey, fp, slot).value;
    if k > 0 {
      FirstWritePermitted(o, LoadKey, fp, slot);
      LoadKeyKeepsOrder(o, KeyWords(fp), slot, ws[0]);
      ResumeAfterOne(o, LoadKey, fp, slot);
      ValidBitComesLast(Burn(o, ws[0]), fp, slot, k - 1);
      assert ws[..k][1..] == ws[1..][..k - 1];
    }
  }

  lemma LoadKeyKeepsOrder(o: Otp, key: seq<Half>, slot: nat, w: Write)
    requires WellFormed(o) && |key| == 16 && slot < 4 && Permitted(o, LoadKey, key, slot, w)
    requires slot !in Vote(o.flags, 2) || Stores(o.words, slot, key)
    ensures slot !in Vote(Burn(o, w).flags, 2) || Stores(Burn(o, w).words, slot, key)
  {
  }

  // A stored key with no zero word can never be changed again, by any run.
  lemma StoredKeyIsStable(o: Otp, slot: nat, key: seq<Half>, run: seq<Invocation>)
    requires WellFormed(o) && slot < 4 && Stores(o.words, slot, key) && 0 !in key
    ensures Stores(Run(o, run).words, slot, key)
  {
    RunGrows(o, run);
    forall i | 0 <= i < 16
      ensures HoldsWord(Run(o, run).words, slot, i, key[i])
    {
      assert HoldsWord(o.words, slot, i, key[i]);
    }
  }

  // A trusted slot stays trusted: load-key revokes nothing, and a lock is refused while another slot is
  // trusted beside its own.
  lemma WriteKeepsTrust(o: Otp, action: Action, key: seq<Half>, slot: nat, w: Write, m: nat)
    requires WellFormed(o) && |key| == 16 && slot < 4 && Permitted(o, action, key, slot, w)
    requires m < 4 && Trusted(o.flags, m)
    ensures Trusted(Burn(o, w).flags, m)
  {
    if w.RawWrite? && w.register == Flags {
      var bits := if action == LoadKey then {slot} else Revocation(TrustedSlots(o.flags));
      assert m + 8 !in bits && w.value == o.flags[w.index] + bits;
      assert Program(o.flags, w.index, w.value) == Program(o.flags, w.index, bits);
      CountOfProgrammed(o.flags, w.index, bits, m);
      CountOfProgrammed(o.flags, w.index, bits, m + 8);
    }
  }

  lemma {:induction false} TrustAlongPlan(o: Otp, action: Action, fp: seq<byte>, slot: int, k: nat, m: nat)
    requires WellFormed(o) && SecurityPlan(o, action, fp, slot).Ok? && k <= |SecurityPlan(o, action, fp, slot).value|
    requires m < 4 && Trusted(o.flags, m)
    ensures Trusted(BurnAll(o, SecurityPlan(o, action, fp, slot).value[..k]).flags, m)
    decreases k
  {
    hide StagePlan, PageOpen, Permitted, Trusted;
    var ws := SecurityPlan(o, action, fp, slot).value;
    if k > 0 {
      FirstWritePermitted(o, action, fp, slot);
      WriteKeepsTrust(o, action, KeyWords(fp), slot, ws[0], m);
      ResumeAfterOne(o, action, fp, slot);
      TrustAlongPlan(Burn(o, ws[0]), action, fp, slot, k - 1, m);
      assert ws[..k][1..] == ws[1..][..k - 1];
    }
  }

  lemma {:induction false} TrustIsStable(o: Otp, m: nat, run: seq<Invocation>)
    requires WellFormed(o) && m < 4 && Trusted(o.flags, m)
    ensures Trusted(Run(o, run).flags, m)
    decreases |run|
  {
    hide SecurityPlan, Trusted;
    if run != [] {
      var v := run[0];
      var plan := SecurityPlan(o, v.action, v.fp, v.slot);
      if plan.Ok? {
        assert plan.value[..|plan.value|] == plan.value;
        TrustAlongPlan(o, v.action, v.fp, v.slot, if v.cut < |plan.value| then v.cut else |plan.value|, m);
      }
      TrustIsStable(Session(o, v.action, v.fp, v.slot, v.cut), m, run[1..]);
    }
  }

  // Once an enable stage is accepted for a key without a zero word, firmware signed with that key stays
  // bootable: after every later run its slot still holds the whole key and is still trusted.
  lemma EnabledKeyStaysBootable(o: Otp, fp: seq<byte>, slot: int, run: seq<Invocation>)
    requires WellFormed(o) && SecurityPlan(o, Enable, fp, slot).Ok? && 0 !in KeyWords(fp)
    ensures exists m: nat :: m < 4 && AllHold(o.flags, {m}) && Matching(o.words, o.flags, KeyWords(fp), m)
              && Matching(Run(o, run).words, Run(o, run).flags, KeyWords(fp), m)
  {
    hide Run, Trusted, Stores, Revocation;
    var key := KeyWords(fp);
    var m := Matches(o.words, o.flags, key)[0];
    assert m in Matches(o.words, o.flags, key);
    StoredKeyIsStable(o, m, key, run);
    TrustIsStable(o, m, run);
    assert AllHold(o.flags, {m});
  }

  function FingerprintOf(key: seq<Half>): (fp: seq<byte>)
    requires |key| == 16
    ensures |fp| == 32 && KeyWords(fp) == key
  {
    var fp := seq<byte>(32, j requires 0 <= j < 32 => if j % 2 == 0 then key[j / 2] % 256 else key[j / 2] / 256);
    assert forall i | 0 <= i < 16 :: KeyWords(fp)[i] == key[i];
    fp
  }

  lemma {:induction false} WordWritesAccept(words: seq<Word>, slot: nat, key: seq<Half>, i: nat)
    requires |words| == 64 && slot < 4 && |key| == 16 && i <= 16
    ensures WordWrites(words, slot, key, i).Ok? <==>
              forall j | i <= j < 16 :: words[16 * slot + j].Blank? || HoldsWord(words, slot, j, key[j])
    decreases 16 - i
  {
    if i < 16 {
      WordWritesAccept(words, slot, key, i + 1);
      assert words[16 * slot + i].Blank? || HoldsWord(words, slot, i, key[i])
        || !(forall j | i <= j < 16 :: words[16 * slot + j].Blank? || HoldsWord(words, slot, j, key[j]));
    }
  }

  lemma {:induction false} WordWritesHas(words: seq<Word>, slot: nat, key: seq<Half>, i: nat, j: nat)
    requires |words| == 64 && slot < 4 && |key| == 16 && i <= j < 16 && WordWrites(words, slot, key, i).Ok?
    requires words[16 * slot + j].Blank? && key[j] != 0
    ensures WordWrite(16 * slot + j, key[j]) in WordWrites(words, slot, key, i).value
    decreases 16 - i
  {
    if i < j {
      WordWritesHas(words, slot, key, i + 1, j);
    }
  }

  lemma {:induction false} RawWritesShape(reg: Register, rows: seq<Row>, bits: Row, i: nat)
    requires i <= |rows|
    ensures forall w | w in RawWrites(reg, rows, bits, i) :: w.RawWrite? && w.register == reg
    ensures RawWrites(reg, rows, bits, i) == [] <==> forall j | i <= j < |rows| :: bits <= rows[j]
    decreases |rows| - i
  {
    if i < |rows| {
      RawWritesShape(reg, rows, bits, i + 1);
    }
  }

  // load-key needs no access key on the pages, a slot that is not revoked, page 2 open for the words, and
  // page 1 open unless the valid bit is already in every copy.
  ghost predicate Rewritable(o: Otp, slot: nat)
    requires WellFormed(o)
  {
    && (forall i | 0 <= i < |o.keyLocks| :: o.keyLocks[i] == {}) && !Revoking(o.flags, slot)
    && Open(o.locks, 1) && (Open(o.locks, 0) || AllHold(o.flags, {slot}))
  }

  // Its guard compares programmed words only, so a slot that already stores one fingerprint accepts a
  // different one if and only if one of the words is still blank and nothing else stands in the way.
  lemma SlotAcceptsAnotherKey(o: Otp, slot: nat, fp: seq<byte>)
    requires WellFormed(o) && slot < 4 && |fp| == 32 && Stores(o.words, slot, KeyWords(fp))
    ensures (exists other: seq<byte> :: other != fp && SecurityPlan(o, LoadKey, other, slot).Ok?) <==>
              Rewritable(o, slot) && exists i | 16 * slot <= i < 16 * slot + 16 :: o.words[i].Blank?
  {
    hide SecurityPlan, Rewritable, Effective;
    forall other: seq<byte> | other != fp && SecurityPlan(o, LoadKey, other, slot).Ok?
      ensures Rewritable(o, slot) && exists i | 16 * slot <= i < 16 * slot + 16 :: o.words[i].Blank?
    {
      AcceptedNeedsBlank(o, slot, fp, other);
    }
    if Rewritable(o, slot) {
      if i :| 16 * slot <= i < 16 * slot + 16 && o.words[i].Blank? {
        BlankIsAccepted(o, slot, KeyWords(fp), i - 16 * slot);
        var other := FingerprintOf(KeyWords(fp)[i - 16 * slot := 1]);
        assert HoldsWord(o.words, slot, i - 16 * slot, KeyWords(fp)[i - 16 * slot]);
        assert KeyWords(other)[i - 16 * slot] == 1;
      }
    }
  }

  lemma AcceptedNeedsBlank(o: Otp, slot: nat, fp: seq<byte>, other: seq<byte>)
    requires WellFormed(o) && slot < 4 && |fp| == 32 && Stores(o.words, slot, KeyWords(fp))
    requires other != fp && SecurityPlan(o, LoadKey, other, slot).Ok?
    ensures Rewritable(o, slot) && exists i | 16 * slot <= i < 16 * slot + 16 :: o.words[i].Blank?
  {
    hide Effective;
    var i := DifferentWord(fp, other);
    var key, flags := KeyWords(other), RawWrites(Flags, o.flags, {slot}, 0);
    var plan := SecurityPlan(o, LoadKey, other, slot).value;
    assert plan == WordWrites(o.words, slot, key, 0).value + flags;
    WordWritesAccept(o.words, slot, key, 0);
    assert HoldsWord(o.words, slot, i, KeyWords(fp)[i]);
    assert o.words[16 * slot + i].Blank?;
    WordWritesHas(o.words, slot, key, 0, i);
    assert WordWrite(16 * slot + i, key[i]) in plan;
    RawWritesShape(Flags, o.flags, {slot}, 0);
    if flags != [] {
      assert flags[0] in flags && flags[0] in plan;
    }
  }

  lemma DifferentWord(fp: seq<byte>, other: seq<byte>) returns (i: nat)
    requires |fp| == |other| == 32 && fp != other
    ensures i < 16 && KeyWords(fp)[i] != KeyWords(other)[i]
  {
    var j :| 0 <= j < 32 && fp[j] != other[j];
    i := j / 2;
  }

  lemma BlankIsAccepted(o: Otp, slot: nat, key: seq<Half>, i: nat)
    requires WellFormed(o) && slot < 4 && Stores(o.words, slot, key) && Rewritable(o, slot)
    requires i < 16 && o.words[16 * slot + i].Blank?
    ensures SecurityPlan(o, LoadKey, FingerprintOf(key[i := 1]), slot).Ok?
  {
    hide StagePlan, Open, HoldsWord, FingerprintOf, Revoking;
    BlankIsStaged(o, slot, key, i);
    var fp := FingerprintOf(key[i := 1]);
    NonZeroFingerprint(fp, i);
    var plan := StagePlan(o, LoadKey, KeyWords(fp), slot).value;
    forall k | 0 <= k < |plan|
      ensures PageOpen(o.locks, plan[k])
    {
      assert plan[k] in plan;
    }
  }

  lemma NonZeroFingerprint(fp: seq<byte>, i: nat)
    requires |fp| == 32 && i < 16 && KeyWords(fp)[i] != 0
    ensures exists j | 0 <= j < |fp| :: fp[j] != 0
  {
    if fp[2 * i] == 0 {
      assert fp[2 * i + 1] != 0;
    }
  }

  lemma BlankIsStaged(o: Otp, slot: nat, key: seq<Half>, i: nat)
    requires WellFormed(o) && slot < 4 && Stores(o.words, slot, key) && !Revoking(o.flags, slot)
    requires i < 16 && o.words[16 * slot + i].Blank?
    ensures var plan := StagePlan(o, LoadKey, key[i := 1], slot);
            plan.Ok? && forall w <- plan.value ::
              w.WordWrite? || (w.RawWrite? && w.register == Flags && !AllHold(o.flags, {slot}))
  {
    hide WordWrites, RawWrites, AllHold;
    var other := key[i := 1];
    forall j | 0 <= j < 16
      ensures o.words[16 * slot + j].Blank? || HoldsWord(o.words, slot, j, other[j])
    {
      assert HoldsWord(o.words, slot, j, key[j]);
    }
    WordWritesAccept(o.words, slot, other, 0);
    WordWritesValue(o.words, slot, other, 0);
    var flags := RawWrites(Flags, o.flags, {slot}, 0);
    RawWritesShape(Flags, o.flags, {slot}, 0);
    AllHoldIff(o.flags, {slot});
    assert StagePlan(o, LoadKey, other, slot) == Ok(WordWrites(o.words, slot, other, 0).value + flags);
  }

  lemma AllHoldIff(rows: seq<Row>, bits: Row)
    ensures AllHold(rows, bits) <==> forall i | 0 <= i < |rows| :: bits <= rows[i]
  {
  }

  // ---------------------------------------------------------------- locking

  ghost predicate Locked(o: Otp)
    requires WellFormed(o)
  {
    Effective(o.locks[0]) == LOCKED_COPY && Effective(o.locks[1]) == LOCKED_COPY
  }

  // A completed lock plan closes both pages.
  lemma LockCompletes(o: Otp, fp: seq<byte>, slot: int)
    requires WellFormed(o) && SecurityPlan(o, Lock, fp, slot).Ok?
    ensures Locked(BurnAll(o, SecurityPlan(o, Lock, fp, slot).value))
  {
    hide StagePlan;
    hide PageOpen;
    hide Locked;
    var ws := SecurityPlan(o, Lock, fp, slot).value;
    CrashResumption(o, Lock, fp, slot, |ws|);
    assert ws[..|ws|] == ws && ws[|ws|..] == [];
    NothingLeftToLock(BurnAll(o, ws), KeyWords(fp), slot);
  }

  // In every copy.
  predicate Revoked(flags: seq<Row>, slot: nat) {
    slot + 8 in Vote(flags, 3)
  }

  predicate OthersRevoked(flags: seq<Row>, m: nat) {
    forall s: nat | s < 4 && s != m :: Revoked(flags, s)
  }

  // And it leaves the one trusted slot as it was, with every other slot revoked in every copy.
  lemma LockLeavesOneKey(o: Otp, fp: seq<byte>, slot: int)
    requires WellFormed(o) && SecurityPlan(o, Lock, fp, slot).Ok?
    ensures var after := BurnAll(o, SecurityPlan(o, Lock, fp, slot).value);
            exists m: nat :: m < 4 && TrustedSlots(o.flags) == TrustedSlots(after.flags) == {m}
              && Matching(after.words, after.flags, KeyWords(fp), m)
              && OthersRevoked(after.flags, m)
  {
    hide StagePlan, PageOpen, TrustedSlots, Matching, Vote;
    var ws := SecurityPlan(o, Lock, fp, slot).value;
    CrashResumption(o, Lock, fp, slot, |ws|);
    LockKeepsTrust(o, fp, slot, |ws|);
    assert ws[..|ws|] == ws && ws[|ws|..] == [];
    NothingLeftToRevoke(BurnAll(o, ws), KeyWords(fp), slot);
  }

  lemma NothingLeftToRevoke(o: Otp, key: seq<Half>, slot: nat)
    requires WellFormed(o) && |key| == 16 && slot < 4 && StagePlan(o, Lock, key, slot) == Ok([])
    ensures exists m: nat :: m < 4 && TrustedSlots(o.flags) == {m} && Matching(o.words, o.flags, key, m)
              && OthersRevoked(o.flags, m)
  {
    hide Matching, TrustedSlots, Effective;
    var m := Matches(o.words, o.flags, key)[0];
    assert m in Matches(o.words, o.flags, key);
    var flags := RawWrites(Flags, o.flags, Revocation({m}), 0);
    assert flags + LockWrites(o.locks, 0).value == [];
    RawWritesShape(Flags, o.flags, Revocation({m}), 0);
    forall s: nat | s < 4 && s != m
      ensures Revoked(o.flags, s)
    {
      forall i | 0 <= i < 3
        ensures s + 8 in o.flags[i]
      {
        assert s + 8 in Revocation({m}) && Revocation({m}) <= o.flags[i];
      }
      CountBounds(o.flags, s + 8);
    }
  }

  lemma {:induction false} LockKeepsTrust(o: Otp, fp: seq<byte>, slot: int, k: nat)
    requires WellFormed(o) && SecurityPlan(o, Lock, fp, slot).Ok? && k <= |SecurityPlan(o, Lock, fp, slot).value|
    ensures TrustedSlots(BurnAll(o, SecurityPlan(o, Lock, fp, slot).value[..k]).flags) == TrustedSlots(o.flags)
    decreases k
  {
    hide StagePlan, PageOpen, TrustedSlots;
    var ws := SecurityPlan(o, Lock, fp, slot).value;
    if k > 0 {
      FirstWritePermitted(o, Lock, fp, slot);
      LockWriteKeepsTrust(o, KeyWords(fp), slot, ws[0]);
      ResumeAfterOne(o, Lock, fp, slot);
      LockKeepsTrust(Burn(o, ws[0]), fp, slot, k - 1);
      assert ws[..k][1..] == ws[1..][..k - 1];
    }
  }

  lemma LockWriteKeepsTrust(o: Otp, key: seq<Half>, slot: nat, w: Write)
    requires WellFormed(o) && |key| == 16 && slot < 4 && Permitted(o, Lock, key, slot, w)
    ensures TrustedSlots(Burn(o, w).flags) == TrustedSlots(o.flags)
  {
    hide Trusted;
    if w.register == Flags {
      forall s: nat | s < 4
        ensures Trusted(Burn(o, w).flags, s) == Trusted(o.flags, s)
      {
        RevocationKeepsTrust(o.flags, w.index, s);
      }
    }
  }

  lemma NothingLeftToLock(o: Otp, key: seq<Half>, slot: nat)
    requires WellFormed(o) && |key| == 16 && slot < 4 && StagePlan(o, Lock, key, slot) == Ok([])
    ensures Locked(o)
  {
    hide Matches;
    hide TrustedSlots;
    hide Effective;
    var flags := RawWrites(Flags, o.flags, Revocation(TrustedSlots(o.flags)), 0);
    assert flags + LockWrites(o.locks, 0).value == [];
    LockWritesShape(o.locks, 0);
  }

  // Locked is absorbing: every plan is refused or empty and no run changes the board.
  lemma {:induction false} LockedIsAbsorbing(o: Otp, run: seq<Invocation>)
    requires WellFormed(o) && Locked(o)
    ensures Run(o, run) == o
    ensures forall v | v in run :: SecurityPlan(o, v.action, v.fp, v.slot).Err? ||
              SecurityPlan(o, v.action, v.fp, v.slot) == Ok([])
    decreases |run|
  {
    if run != [] {
      LockedPlansNothing(o, run[0].action, run[0].fp, run[0].slot);
      hide SecurityPlan;
      assert Session(o, run[0].action, run[0].fp, run[0].slot, run[0].cut) == o;
      LockedIsAbsorbing(o, run[1..]);
    }
  }

  lemma LockedPlansNothing(o: Otp, action: Action, fp: seq<byte>, slot: int)
    requires WellFormed(o) && Locked(o)
    ensures SecurityPlan(o, action, fp, slot).Err? || SecurityPlan(o, action, fp, slot) == Ok([])
  {
    hide StagePlan;
    hide Effective;
    var plan := SecurityPlan(o, action, fp, slot);
    if plan.Ok? && plan.value != [] {
      assert !PageOpen(o.locks, plan.value[0]);
    }
  }
}
