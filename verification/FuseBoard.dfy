/** The board in place (firmware.py): planning by appending to a list of writes, and burning them one by
    one with a read-back. */
module FuseBoard {
  import opened Bytes
  import opened FusePlan
  import opened FuseResume
  import opened FuseSafety

  // ---------------------------------------------------------------- the board

  /** The boot rows of one board, as the tool reads and programs them. */
  class Board {
    var critical: seq<Row>
    var flags: seq<Row>
    var locks: seq<Row>
    var keyLocks: seq<Row>
    var words: seq<Word>

    ghost function Contents(): Otp
      reads this
    {
      Otp(critical, flags, locks, keyLocks, words)
    }

    // Programs one row and reads it back.
    method WriteRow(w: Write) returns (verified: bool)
      requires WellFormed(Contents())
      modifies this
      ensures Contents() == Burn(old(Contents()), w)
      ensures verified == ReadsBack(Contents(), w)
    {
      match w
      case RawWrite(reg, i, value) =>
        match reg {
          case Critical =>
            critical := Program(critical, i, value);
            verified := i < |critical| && critical[i] == value;
          case Flags =>
            flags := Program(flags, i, value);
            verified := i < |flags| && flags[i] == value;
          case Locks =>
            locks := Program(locks, i, value);
            verified := i < |locks| && locks[i] == value;
        }
      case WordWrite(i, value) =>
        if i < |words| {
          words := words[i := if words[i].Blank? || words[i] == Coded(value) then Coded(value) else Unreadable];
        }
        verified := i < |words| && words[i] == Coded(value);
    }

    // Burns a fresh plan in order until it is done or power is lost after `cut` writes.
    // Every write reads back, so the stage never stops half way on its own.
    method BurnPlan(action: Action, fp: seq<byte>, slot: int, plan: seq<Write>, cut: nat) returns (verified: bool)
      requires WellFormed(Contents())
      requires SecurityPlan(Contents(), action, fp, slot) == Ok(plan)
      modifies this
      ensures verified
      ensures Contents() == Session(old(Contents()), action, fp, slot, cut)
    {
      hide SecurityPlan;
      hide Burn;
      hide ReadsBack;
      hide WellFormed;
      ghost var start := Contents();
      verified := true;
      var i := 0;
      while i < |plan| && i < cut
        invariant 0 <= i <= |plan| && i <= cut && verified
        invariant WellFormed(Contents()) && Contents() == BurnAll(start, plan[..i])
      {
        FreshWriteReadsBack(start, action, fp, slot, i);
        verified := WriteRow(plan[i]);
        BurnAllSnoc(start, plan, i);
        i := i + 1;
      }
      assert plan[..|plan|] == plan;
    }

    // The planner: the same checks in the same order, with the writes collected in loops.
    method PlanStage(action: Action, fp: seq<byte>, slot: int) returns (plan: Result<seq<Write>>)
      requires WellFormed(Contents())
      ensures plan == SecurityPlan(Contents(), action, fp, slot)
    {
      hide StagePlan, KeyWords, Open;
      if !(0 <= slot < 4) || |fp| != 32 || (forall i | 0 <= i < |fp| :: fp[i] == 0) {
        return Err(InvalidKeyOrSlot);
      }
      if exists i | 0 <= i < |keyLocks| :: keyLocks[i] != {} {
        return Err(AccessKeyPolicy);
      }
      plan := CollectWrites(action, KeyWords(fp), slot);
      if plan.Ok? {
        var open := PagesOpen(plan.value);
        if !open {
          plan := Err(PageLocked);
        }
      }
    }

    method PagesOpen(plan: seq<Write>) returns (open: bool)
      requires |locks| == 2
      ensures open == forall i | 0 <= i < |plan| :: PageOpen(locks, plan[i])
    {
      var i := 0;
      while i < |plan|
        invariant 0 <= i <= |plan|
        invariant forall j | 0 <= j < i :: PageOpen(locks, plan[j])
      {
        if !PageOpen(locks, plan[i]) {
          return false;
        }
        i := i + 1;
      }
      open := true;
    }

    method CollectWrites(action: Action, key: seq<Half>, slot: nat) returns (plan: Result<seq<Write>>)
      requires WellFormed(Contents()) && |key| == 16 && slot < 4
      ensures plan == StagePlan(Contents(), action, key, slot)
    {
      if action == LoadKey {
        if exists i | 0 <= i < |flags| :: slot + 8 in flags[i] {
          return Err(SlotRevoked);
        }
        plan := CollectWords(key, slot);
        if plan.Ok? {
          var valid := CollectRaw(Flags, flags, {slot});
          plan := Ok(plan.value + valid);
        }
        return;
      }
      var ms := Matches(words, flags, key);
      if |ms| != 1 {
        return Err(NoUniqueMatch);
      }
      match action
      case Harden =>
        var ws := CollectRaw(Critical, critical, HARDEN_BITS);
        plan := Ok(ws);
      case Enable =>
        if exists i | 0 <= i < |critical| :: !(HARDEN_BITS <= critical[i]) {
          return Err(NotHardened);
        }
        if exists i | 0 <= i < |flags| :: ms[0] !in flags[i] {
          return Err(KeyNotFinished);
        }
        var ws := CollectRaw(Critical, critical, {0});
        plan := Ok(ws);
      case Lock =>
        if exists i | 0 <= i < |critical| :: !(LOCKABLE_BITS <= critical[i]) {
          return Err(NotEnabled);
        }
        if TrustedSlots(flags) != {ms[0]} {
          return Err(OtherKeyTrusted);
        }
        var ws := CollectRaw(Flags, flags, Revocation(TrustedSlots(flags)));
        plan := CollectLocks();
        if plan.Ok? {
          plan := Ok(ws + plan.value);
        }
      case Unknown =>
        plan := Err(UnknownAction);
    }

    method CollectRaw(reg: Register, rows: seq<Row>, bits: Row) returns (ws: seq<Write>)
      ensures ws == RawWrites(reg, rows, bits, 0)
    {
      ws := [];
      var i := 0;
      while i < |rows|
        invariant 0 <= i <= |rows|
        invariant ws + RawWrites(reg, rows, bits, i) == RawWrites(reg, rows, bits, 0)
      {
        if !(bits <= rows[i]) {
          ws := ws + [RawWrite(reg, i, rows[i] + bits)];
        }
        i := i + 1;
      }
    }

    method CollectWords(key: seq<Half>, slot: nat) returns (plan: Result<seq<Write>>)
      requires WellFormed(Contents()) && |key| == 16 && slot < 4
      ensures plan == WordWrites(words, slot, key, 0)
    {
      var ws := [];
      var i := 0;
      PrependNil(WordWrites(words, slot, key, 0));
      while i < 16
        invariant 0 <= i <= 16
        invariant WordWrites(words, slot, key, 0) == Prepend(ws, WordWrites(words, slot, key, i))
      {
        var w := words[16 * slot + i];
        if w.Unreadable? {
          return Err(UnreadableWord);
        }
        if w.Coded? && w.value != key[i] {
          return Err(SlotOccupied);
        }
        if w.Blank? && key[i] != 0 {
          PrependSnoc(ws, WordWrite(16 * slot + i, key[i]), WordWrites(words, slot, key, i + 1));
          ws := ws + [WordWrite(16 * slot + i, key[i])];
        }
        i := i + 1;
      }
      assert ws + [] == ws;
      plan := Ok(ws);
    }

    method CollectLocks() returns (plan: Result<seq<Write>>)
      requires WellFormed(Contents())
      ensures plan == LockWrites(locks, 0)
    {
      var ws := [];
      var i := 0;
      PrependNil(LockWrites(locks, 0));
      while i < |locks|
        invariant 0 <= i <= |locks|
        invariant LockWrites(locks, 0) == Prepend(ws, LockWrites(locks, i))
      {
        if !(locks[i] <= BOOT_LOCK) {
          return Err(IncompatibleLock);
        }
        if Effective(locks[i]) != LOCKED_COPY && !(BOOT_LOCK <= locks[i]) {
          PrependSnoc(ws, RawWrite(Locks, i, locks[i] + BOOT_LOCK), LockWrites(locks, i + 1));
          ws := ws + [RawWrite(Locks, i, locks[i] + BOOT_LOCK)];
        }
        i := i + 1;
      }
      assert ws + [] == ws;
      plan := Ok(ws);
    }
  }

  function Prepend(ws: seq<Write>, rest: Result<seq<Write>>): Result<seq<Write>> {
    if rest.Err? then rest else Ok(ws + rest.value)
  }

  lemma PrependNil(rest: Result<seq<Write>>)
    ensures Prepend([], rest) == rest
  {
    assert rest.Ok? ==> [] + rest.value == rest.value;
  }

  lemma PrependSnoc(ws: seq<Write>, w: Write, rest: Result<seq<Write>>)
    ensures Prepend(ws + [w], rest) == Prepend(ws, Prepend([w], rest))
  {
    assert rest.Ok? ==> (ws + [w]) + rest.value == ws + ([w] + rest.value);
  }

  lemma {:induction false} BurnAllSnoc(o: Otp, ws: seq<Write>, k: nat)
    requires k < |ws|
    ensures BurnAll(o, ws[..k + 1]) == Burn(BurnAll(o, ws[..k]), ws[k])
  {
    BurnAllSplit(o, ws[..k + 1], k);
    assert ws[..k + 1][..k] == ws[..k] && ws[..k + 1][k..] == [ws[k]];
  }

  lemma FreshWriteReadsBack(o: Otp, action: Action, fp: seq<byte>, slot: int, k: nat)
    requires WellFormed(o) && SecurityPlan(o, action, fp, slot).Ok? && k < |SecurityPlan(o, action, fp, slot).value|
    ensures var ws := SecurityPlan(o, action, fp, slot).value;
            ReadsBack(Burn(BurnAll(o, ws[..k]), ws[k]), ws[k])
  {
    hide SecurityPlan;
    hide Permitted;
    var ws := SecurityPlan(o, action, fp, slot).value;
    CrashResumption(o, action, fp, slot, k);
    FirstWritePermitted(BurnAll(o, ws[..k]), action, fp, slot);
    PermittedWriteGrows(BurnAll(o, ws[..k]), action, KeyWords(fp), slot, ws[k]);
  }
}
