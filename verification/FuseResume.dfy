/** Crash resumption of fuse programming (firmware.py): whatever part of a plan was burned before the
    power failed, planning again yields exactly the rest. */
module FuseResume {
  import opened Bytes
  import opened FusePlan

  // ---------------------------------------------------------------- resuming one write later

  lemma {:induction false} RawWritesResume(reg: Register, rows: seq<Row>, bits: Row, i: nat)
    requires i <= |rows| && RawWrites(reg, rows, bits, i) != []
    ensures var w := RawWrites(reg, rows, bits, i)[0];
            && w.RawWrite? && w.register == reg && i <= w.index < |rows| && w.value == rows[w.index] + bits
            && RawWrites(reg, Program(rows, w.index, w.value), bits, i) == RawWrites(reg, rows, bits, i)[1..]
    decreases |rows| - i
  {
    if bits <= rows[i] {
      RawWritesResume(reg, rows, bits, i + 1);
    } else {
      var w := RawWrites(reg, rows, bits, i)[0];
      RawWritesAgree(reg, rows, Program(rows, i, w.value), bits, i + 1);
    }
  }

  lemma {:induction false} RawWritesAgree(reg: Register, rows: seq<Row>, rows': seq<Row>, bits: Row, i: nat)
    requires i <= |rows| == |rows'| && rows[i..] == rows'[i..]
    ensures RawWrites(reg, rows, bits, i) == RawWrites(reg, rows', bits, i)
    decreases |rows| - i
  {
    if i < |rows| {
      assert rows[i] == rows[i..][0] == rows'[i];
      assert rows[i + 1..] == rows[i..][1..] == rows'[i + 1..];
      RawWritesAgree(reg, rows, rows', bits, i + 1);
    }
  }

  lemma {:induction false} WordWritesResume(words: seq<Word>, slot: nat, key: seq<Half>, i: nat)
    requires |words| == 64 && slot < 4 && |key| == 16 && i <= 16
    requires WordWrites(words, slot, key, i).Ok? && WordWrites(words, slot, key, i).value != []
    ensures var w := WordWrites(words, slot, key, i).value[0];
            && w.WordWrite? && 16 * slot + i <= w.index < 16 * slot + 16 && words[w.index].Blank?
            && WordWrites(words[w.index := Coded(w.word)], slot, key, i) ==
               Ok(WordWrites(words, slot, key, i).value[1..])
    decreases 16 - i
  {
    if words[16 * slot + i].Blank? && key[i] != 0 {
      var words' := words[16 * slot + i := Coded(key[i])];
      WordWritesAgree(words, words', slot, key, i + 1);
    } else {
      WordWritesResume(words, slot, key, i + 1);
    }
  }

  lemma {:induction false} WordWritesAgree(words: seq<Word>, words': seq<Word>, slot: nat, key: seq<Half>, i: nat)
    requires |words| == |words'| == 64 && slot < 4 && |key| == 16 && i <= 16
    requires forall j | 16 * slot + i <= j < 64 :: words[j] == words'[j]
    ensures WordWrites(words, slot, key, i) == WordWrites(words', slot, key, i)
    decreases 16 - i
  {
    if i < 16 {
      WordWritesAgree(words, words', slot, key, i + 1);
    }
  }

  lemma {:induction false} WordWritesDone(words: seq<Word>, slot: nat, key: seq<Half>, i: nat)
    requires |words| == 64 && slot < 4 && |key| == 16 && i <= 16
    requires WordWrites(words, slot, key, i) == Ok([])
    ensures forall j | i <= j < 16 :: HoldsWord(words, slot, j, key[j])
    decreases 16 - i
  {
    if i < 16 {
      var rest := WordWrites(words, slot, key, i + 1);
      assert rest.Ok? && rest.value == [];
      WordWritesDone(words, slot, key, i + 1);
      assert HoldsWord(words, slot, i, key[i]);
    }
  }

  lemma {:induction false} WordWritesValue(words: seq<Word>, slot: nat, key: seq<Half>, i: nat)
    requires |words| == 64 && slot < 4 && |key| == 16 && i <= 16 && WordWrites(words, slot, key, i).Ok?
    ensures forall w | w in WordWrites(words, slot, key, i).value ::
              w.WordWrite? && 16 * slot + i <= w.index < 16 * slot + 16 && w.word == key[w.index - 16 * slot] != 0
    decreases 16 - i
  {
    if i < 16 {
      WordWritesValue(words, slot, key, i + 1);
    }
  }

  // Programming the lock pattern makes it win the vote, so the row needs no second write.
  lemma BootLockTakesEffect(row: Row)
    requires row <= BOOT_LOCK
    ensures Effective(row + BOOT_LOCK) == LOCKED_COPY
  {
    assert row + BOOT_LOCK == BOOT_LOCK;
    var copies := [Shifted(BOOT_LOCK, 0), Shifted(BOOT_LOCK, 8), Shifted(BOOT_LOCK, 16)];
    forall c | 0 <= c < 3
      ensures copies[c] == LOCKED_COPY
    {
    }
    forall b: nat
      ensures Count(copies, b) == if b in LOCKED_COPY then 3 else 0
    {
      CountBounds(copies, b);
    }
  }

  lemma {:induction false} LockWritesShape(locks: seq<Row>, i: nat)
    requires i <= |locks| && LockWrites(locks, i).Ok?
    ensures forall j | 0 <= j < |LockWrites(locks, i).value| ::
              var w := LockWrites(locks, i).value[j];
              w.RawWrite? && w.register == Locks && i <= w.index < |locks| && w.value == BOOT_LOCK
    ensures forall j, k | 0 <= j < k < |LockWrites(locks, i).value| ::
              LockWrites(locks, i).value[j].index < LockWrites(locks, i).value[k].index
    ensures LockWrites(locks, i).value == [] ==>
              forall j | i <= j < |locks| :: Effective(locks[j]) == LOCKED_COPY
    decreases |locks| - i
  {
    if i < |locks| {
      LockWritesShape(locks, i + 1);
      assert locks[i] + BOOT_LOCK == BOOT_LOCK;
      if BOOT_LOCK <= locks[i] {
        assert locks[i] == BOOT_LOCK;
        BootLockTakesEffect(locks[i]);
      }
    }
  }

  lemma {:induction false} LockWritesResume(locks: seq<Row>, i: nat)
    requires i <= |locks| && LockWrites(locks, i).Ok? && LockWrites(locks, i).value != []
    ensures var w := LockWrites(locks, i).value[0];
            && w.RawWrite? && w.register == Locks && i <= w.index < |locks|
            && LockWrites(Program(locks, w.index, w.value), i) == Ok(LockWrites(locks, i).value[1..])
    decreases |locks| - i
  {
    if Effective(locks[i]) != LOCKED_COPY && !(BOOT_LOCK <= locks[i]) {
      BootLockTakesEffect(locks[i]);
      var after := Program(locks, i, locks[i] + BOOT_LOCK);
      assert after[i] == BOOT_LOCK;
      LockWritesAgree(locks, after, i + 1);
    } else {
      LockWritesResume(locks, i + 1);
    }
  }

  lemma {:induction false} LockWritesAgree(locks: seq<Row>, locks': seq<Row>, i: nat)
    requires i <= |locks| == |locks'| && forall j | i <= j < |locks| :: locks[j] == locks'[j]
    ensures LockWrites(locks, i) == LockWrites(locks', i)
    decreases |locks| - i
  {
    if i < |locks| {
      LockWritesAgree(locks, locks', i + 1);
    }
  }

  // Revoking untrusted slots leaves every slot's trust as it was.
  lemma RevocationKeepsTrust(flags: seq<Row>, i: nat, slot: nat)
    requires i < |flags| && slot < 4
    ensures var after := Program(flags, i, flags[i] + Revocation(TrustedSlots(flags)));
            Trusted(after, slot) == Trusted(flags, slot)
  {
    var value := flags[i] + Revocation(TrustedSlots(flags));
    assert Program(flags, i, value) == Program(flags, i, Revocation(TrustedSlots(flags)));
    CountOfProgrammed(flags, i, Revocation(TrustedSlots(flags)), slot);
    CountOfProgrammed(flags, i, Revocation(TrustedSlots(flags)), slot + 8);
  }

  // ---------------------------------------------------------------- crash resumption

  lemma LoadKeyResume(o: Otp, key: seq<Half>, slot: nat)
    requires WellFormed(o) && |key| == 16 && slot < 4
    requires StagePlan(o, LoadKey, key, slot).Ok? && StagePlan(o, LoadKey, key, slot).value != []
    ensures var ws := StagePlan(o, LoadKey, key, slot).value;
            StagePlan(Burn(o, ws[0]), LoadKey, key, slot) == Ok(ws[1..])
  {
    hide Matches, TrustedSlots, LockWrites, WordWrites, RawWrites, Matching, Revocation;
    var ws := StagePlan(o, LoadKey, key, slot).value;
    var words := WordWrites(o.words, slot, key, 0).value;
    if words != [] {
      WordWritesResume(o.words, slot, key, 0);
      assert ws[0] == words[0] && ws[1..] == words[1..] + RawWrites(Flags, o.flags, {slot}, 0);
    } else {
      assert [] + RawWrites(Flags, o.flags, {slot}, 0) == RawWrites(Flags, o.flags, {slot}, 0);
      ValidBitsResume(o, key, slot);
    }
  }

  lemma ValidBitsResume(o: Otp, key: seq<Half>, slot: nat)
    requires WellFormed(o) && |key| == 16 && slot < 4 && WordWrites(o.words, slot, key, 0) == Ok([])
    requires StagePlan(o, LoadKey, key, slot) == Ok(RawWrites(Flags, o.flags, {slot}, 0))
             && RawWrites(Flags, o.flags, {slot}, 0) != []
    ensures var ws := RawWrites(Flags, o.flags, {slot}, 0);
            StagePlan(Burn(o, ws[0]), LoadKey, key, slot) == Ok(ws[1..])
  {
    hide Matches, TrustedSlots, LockWrites, WordWrites, RawWrites;
    RawWritesResume(Flags, o.flags, {slot}, 0);
    var after := Burn(o, RawWrites(Flags, o.flags, {slot}, 0)[0]);
    assert [] + RawWrites(Flags, after.flags, {slot}, 0) == RawWrites(Flags, after.flags, {slot}, 0);
  }

  lemma CriticalResume(o: Otp, action: Action, key: seq<Half>, slot: nat)
    requires WellFormed(o) && |key| == 16 && slot < 4 && (action == Harden || action == Enable)
    requires StagePlan(o, action, key, slot).Ok? && StagePlan(o, action, key, slot).value != []
    ensures var ws := StagePlan(o, action, key, slot).value;
            StagePlan(Burn(o, ws[0]), action, key, slot) == Ok(ws[1..])
  {
    hide TrustedSlots;
    hide LockWrites;
    hide WordWrites;
    RawWritesResume(Critical, o.critical, if action == Harden then HARDEN_BITS else {0}, 0);
  }

  lemma LockFlagsResume(o: Otp, key: seq<Half>, slot: nat, i: nat)
    requires WellFormed(o) && |key| == 16 && slot < 4 && i < 3
    requires StagePlan(o, Lock, key, slot).Ok?
    ensures var after := o.(flags := Program(o.flags, i, o.flags[i] + Revocation(TrustedSlots(o.flags))));
            && TrustedSlots(after.flags) == TrustedSlots(o.flags)
            && StagePlan(after, Lock, key, slot) ==
               Ok(RawWrites(Flags, after.flags, Revocation(TrustedSlots(o.flags)), 0) + LockWrites(o.locks, 0).value)
  {
    var after := Program(o.flags, i, o.flags[i] + Revocation(TrustedSlots(o.flags)));
    forall s: nat | s < 4
      ensures Trusted(after, s) == Trusted(o.flags, s)
    {
      RevocationKeepsTrust(o.flags, i, s);
    }
    hide Trusted;
    assert TrustedSlots(after) == TrustedSlots(o.flags);
    assert Matches(o.words, after, key) == Matches(o.words, o.flags, key);
  }

  lemma LockResume(o: Otp, key: seq<Half>, slot: nat)
    requires WellFormed(o) && |key| == 16 && slot < 4
    requires StagePlan(o, Lock, key, slot).Ok? && StagePlan(o, Lock, key, slot).value != []
    ensures var ws := StagePlan(o, Lock, key, slot).value;
            StagePlan(Burn(o, ws[0]), Lock, key, slot) == Ok(ws[1..])
  {
    hide Matches, WordWrites, TrustedSlots, Revocation, RawWrites, LockWrites;
    var ws := StagePlan(o, Lock, key, slot).value;
    var bits := Revocation(TrustedSlots(o.flags));
    var flags := RawWrites(Flags, o.flags, bits, 0);
    assert ws == flags + LockWrites(o.locks, 0).value;
    if flags != [] {
      RawWritesResume(Flags, o.flags, bits, 0);
      LockFlagsResume(o, key, slot, ws[0].index);
      hide StagePlan;
      assert ws[1..] == flags[1..] + LockWrites(o.locks, 0).value;
    } else {
      LockWritesResume(o.locks, 0);
      assert ws == LockWrites(o.locks, 0).value;
      var after := Burn(o, ws[0]);
      assert [] + LockWrites(after.locks, 0).value == LockWrites(after.locks, 0).value;
    }
  }

  // Page locks are the last writes of a lock plan, in row order.
  lemma LocksComeLast(o: Otp, action: Action, key: seq<Half>, slot: nat)
    requires WellFormed(o) && |key| == 16 && slot < 4
    requires StagePlan(o, action, key, slot).Ok? && StagePlan(o, action, key, slot).value != []
    ensures var ws := StagePlan(o, action, key, slot).value;
            ws[0].RawWrite? && ws[0].register == Locks ==>
              && ws[0].index < 2
              && forall w | w in ws[1..] :: w.RawWrite? && w.register == Locks && ws[0].index < w.index < 2
  {
    hide Matches;
    hide TrustedSlots;
    hide Revocation;
    hide Effective;
    if action == LoadKey {
      LoadKeyStart(o, key, slot);
    } else if action == Lock {
      var ws := StagePlan(o, action, key, slot).value;
      var flags := RawWrites(Flags, o.flags, Revocation(TrustedSlots(o.flags)), 0);
      assert ws == flags + LockWrites(o.locks, 0).value;
      if flags != [] {
        RawWritesResume(Flags, o.flags, Revocation(TrustedSlots(o.flags)), 0);
      } else {
        assert ws == LockWrites(o.locks, 0).value;
        LockWritesShape(o.locks, 0);
      }
    } else {
      RawWritesResume(Critical, o.critical, if action == Harden then HARDEN_BITS else {0}, 0);
    }
  }

  // A write never closes the page that a later write of the same plan needs.
  lemma PagesStayOpen(o: Otp, action: Action, key: seq<Half>, slot: nat)
    requires WellFormed(o) && |key| == 16 && slot < 4
    requires StagePlan(o, action, key, slot).Ok? && StagePlan(o, action, key, slot).value != []
    requires forall w | w in StagePlan(o, action, key, slot).value :: PageOpen(o.locks, w)
    ensures var ws := StagePlan(o, action, key, slot).value;
            forall w | w in ws[1..] :: PageOpen(Burn(o, ws[0]).locks, w)
  {
    hide StagePlan;
    hide Effective;
    LocksComeLast(o, action, key, slot);
    var ws := StagePlan(o, action, key, slot).value;
    forall w | w in ws[1..]
      ensures PageOpen(Burn(o, ws[0]).locks, w)
    {
      assert PageOpen(o.locks, w);
    }
  }

  // Fingerprint words come before valid bits, and a load-key plan has nothing else.
  lemma LoadKeyStart(o: Otp, key: seq<Half>, slot: nat)
    requires WellFormed(o) && |key| == 16 && slot < 4
    requires StagePlan(o, LoadKey, key, slot).Ok? && StagePlan(o, LoadKey, key, slot).value != []
    ensures var w := StagePlan(o, LoadKey, key, slot).value[0];
            && (w.WordWrite? ==> 16 * slot <= w.index < 16 * slot + 16 && o.words[w.index].Blank? &&
                                 w.word == key[w.index - 16 * slot] != 0)
            && (w.RawWrite? ==> w.register == Flags && w.index < 3 && w.value == o.flags[w.index] + {slot}
                                && WordWrites(o.words, slot, key, 0) == Ok([]))
  {
    var words := WordWrites(o.words, slot, key, 0).value;
    if words != [] {
      WordWritesResume(o.words, slot, key, 0);
      WordWritesValue(o.words, slot, key, 0);
      assert StagePlan(o, LoadKey, key, slot).value[0] == words[0] && words[0] in words;
    } else {
      RawWritesResume(Flags, o.flags, {slot}, 0);
      assert StagePlan(o, LoadKey, key, slot).value == RawWrites(Flags, o.flags, {slot}, 0);
    }
  }

  lemma StageResume(o: Otp, action: Action, key: seq<Half>, slot: nat)
    requires WellFormed(o) && |key| == 16 && slot < 4
    requires StagePlan(o, action, key, slot).Ok? && StagePlan(o, action, key, slot).value != []
    ensures var ws := StagePlan(o, action, key, slot).value;
            StagePlan(Burn(o, ws[0]), action, key, slot) == Ok(ws[1..])
  {
    if action == Unknown {
      assert false;
    } else {
      hide StagePlan;
      match action
      case LoadKey => LoadKeyResume(o, key, slot);
      case Lock => LockResume(o, key, slot);
      case _ => CriticalResume(o, action, key, slot);
    }
  }

  // Burning the first write leaves exactly the rest of the plan to do.
  lemma ResumeAfterOne(o: Otp, action: Action, fp: seq<byte>, slot: int)
    requires WellFormed(o)
    requires SecurityPlan(o, action, fp, slot).Ok? && SecurityPlan(o, action, fp, slot).value != []
    ensures var ws := SecurityPlan(o, action, fp, slot).value;
            SecurityPlan(Burn(o, ws[0]), action, fp, slot) == Ok(ws[1..])
  {
    hide StagePlan;
    hide PageOpen;
    var key := KeyWords(fp);
    var ws := SecurityPlan(o, action, fp, slot).value;
    StageResume(o, action, key, slot);
    PagesStayOpen(o, action, key, slot);
    assert Burn(o, ws[0]).keyLocks == o.keyLocks;
  }

  // After any prefix of a plan is burned, planning again gives the remaining suffix;
  // with k = |plan| that is the empty plan of a completed stage.
  lemma {:induction false} CrashResumption(o: Otp, action: Action, fp: seq<byte>, slot: int, k: nat)
    requires WellFormed(o) && SecurityPlan(o, action, fp, slot).Ok?
    requires k <= |SecurityPlan(o, action, fp, slot).value|
    ensures var ws := SecurityPlan(o, action, fp, slot).value;
            SecurityPlan(BurnAll(o, ws[..k]), action, fp, slot) == Ok(ws[k..])
    decreases k
  {
    var ws := SecurityPlan(o, action, fp, slot).value;
    if k > 0 {
      ResumeAfterOne(o, action, fp, slot);
      CrashResumption(Burn(o, ws[0]), action, fp, slot, k - 1);
      assert ws[..k][1..] == ws[1..][..k - 1];
      assert ws[1..][k - 1..] == ws[k..];
    }
  }

  // One run of the tool that loses power after `cut` writes.
  function Session(o: Otp, action: Action, fp: seq<byte>, slot: int, cut: nat): (r: Otp)
    requires WellFormed(o)
    ensures WellFormed(r)
  {
    var plan := SecurityPlan(o, action, fp, slot);
    if plan.Err? then o
    else BurnAll(o, if cut < |plan.value| then plan.value[..cut] else plan.value)
  }

  function Retry(o: Otp, action: Action, fp: seq<byte>, slot: int, cuts: seq<nat>): (r: Otp)
    requires WellFormed(o)
    ensures WellFormed(r)
    decreases |cuts|
  {
    if cuts == [] then o else Retry(Session(o, action, fp, slot, cuts[0]), action, fp, slot, cuts[1..])
  }

  lemma {:induction false} BurnAllSplit(o: Otp, ws: seq<Write>, k: nat)
    requires k <= |ws|
    ensures BurnAll(BurnAll(o, ws[..k]), ws[k..]) == BurnAll(o, ws)
    decreases k
  {
    if k > 0 {
      BurnAllSplit(Burn(o, ws[0]), ws[1..], k - 1);
      assert ws[..k][1..] == ws[1..][..k - 1];
      assert ws[1..][k - 1..] == ws[k..];
    } else {
      assert ws[0..] == ws && ws[..0] == [];
    }
  }

  // Every interruption pattern burns a prefix of the first plan, and all patterns
  // that get far enough end in the same board.
  lemma {:induction false} InterruptionsConverge(o: Otp, action: Action, fp: seq<byte>, slot: int, cuts: seq<nat>)
    requires WellFormed(o) && SecurityPlan(o, action, fp, slot).Ok?
    ensures var ws := SecurityPlan(o, action, fp, slot).value;
            Retry(o, action, fp, slot, cuts) == BurnAll(o, if Sum(cuts) < |ws| then ws[..Sum(cuts)] else ws)
    decreases |cuts|
  {
    hide SecurityPlan, Burn, WellFormed;
    var ws := SecurityPlan(o, action, fp, slot).value;
    if cuts == [] {
      assert ws[..0] == [];
    } else {
      var k := if cuts[0] < |ws| then cuts[0] else |ws|;
      assert ws[..|ws|] == ws;
      var o' := BurnAll(o, ws[..k]);
      CrashResumption(o, action, fp, slot, k);
      InterruptionsConverge(o', action, fp, slot, cuts[1..]);
      var n := if Sum(cuts) < |ws| then Sum(cuts) else |ws|;
      BurnAllSplit(o, ws[..n], k);
      assert ws[..n][..k] == ws[..k];
      assert ws[..n][k..] == ws[k..][..n - k];
      assert ws[k..][..|ws| - k] == ws[k..];
    }
  }
}
