/** What the stages of fuse programming achieve (firmware.py): which boards each stage is accepted on, what
    a completed stage leaves, and that the four stages take a blank board to a locked one. */
module FuseStages {
  import opened Bytes
  import opened FusePlan
  import opened FuseResume
  import opened FuseSafety

  // ---------------------------------------------------------------- completion

  // What each stage is for.
  ghost predicate Achieved(o: Otp, action: Action, key: seq<Half>, slot: nat)
    requires WellFormed(o) && |key| == 16 && slot < 4
  {
    match action
    case LoadKey => Stores(o.words, slot, key) && AllHold(o.flags, {slot})
    case Harden => AllHold(o.critical, HARDEN_BITS)
    case Enable => AllHold(o.critical, {0})
    case Lock => Locked(o) && AllHold(o.flags, Revocation(TrustedSlots(o.flags)))
    case Unknown => false
  }

  lemma {:induction false} WordWritesNothingIff(words: seq<Word>, slot: nat, key: seq<Half>, i: nat)
    requires |words| == 64 && slot < 4 && |key| == 16 && i <= 16 && WordWrites(words, slot, key, i).Ok?
    ensures WordWrites(words, slot, key, i).value == [] <==> forall j | i <= j < 16 :: HoldsWord(words, slot, j, key[j])
    decreases 16 - i
  {
    if i < 16 {
      WordWritesNothingIff(words, slot, key, i + 1);
      assert WordWrites(words, slot, key, i).value == [] ==> HoldsWord(words, slot, i, key[i]);
    }
  }

  lemma {:induction false} LockWritesNothingIff(locks: seq<Row>, i: nat)
    requires i <= |locks| && LockWrites(locks, i).Ok?
    ensures LockWrites(locks, i).value == [] <==> forall j | i <= j < |locks| :: Effective(locks[j]) == LOCKED_COPY
    decreases |locks| - i
  {
    LockWritesShape(locks, i);
    hide Effective;
    if i < |locks| {
      LockWritesNothingIff(locks, i + 1);
    }
  }

  // An accepted stage plans nothing if and only if it is achieved.
  lemma PlansNothingIff(o: Otp, action: Action, key: seq<Half>, slot: nat)
    requires WellFormed(o) && |key| == 16 && slot < 4 && StagePlan(o, action, key, slot).Ok?
    ensures StagePlan(o, action, key, slot).value == [] <==> Achieved(o, action, key, slot)
  {
    hide Matches, TrustedSlots, Effective, RawWrites, WordWrites, LockWrites, Revocation, HoldsWord;
    match action
    case LoadKey =>
      WordWritesNothingIff(o.words, slot, key, 0);
      RawWritesShape(Flags, o.flags, {slot}, 0);
    case Harden => RawWritesShape(Critical, o.critical, HARDEN_BITS, 0);
    case Enable => RawWritesShape(Critical, o.critical, {0}, 0);
    case Lock =>
      RawWritesShape(Flags, o.flags, Revocation(TrustedSlots(o.flags)), 0);
      LockWritesNothingIff(o.locks, 0);
    case Unknown =>
  }

  // A completed stage has achieved what it is for.
  lemma CompletedStage(o: Otp, action: Action, fp: seq<byte>, slot: int)
    requires WellFormed(o) && SecurityPlan(o, action, fp, slot).Ok?
    ensures 0 <= slot < 4 && |fp| == 32
    ensures Achieved(BurnAll(o, SecurityPlan(o, action, fp, slot).value), action, KeyWords(fp), slot)
  {
    hide StagePlan, PageOpen, Achieved;
    var ws := SecurityPlan(o, action, fp, slot).value;
    CrashResumption(o, action, fp, slot, |ws|);
    assert ws[..|ws|] == ws && ws[|ws|..] == [];
    PlansNothingIff(BurnAll(o, ws), action, KeyWords(fp), slot);
  }

  // Enabling is only accepted on a hardened board, so a completed enable stage is what lock asks for: every
  // copy holds the Secure Boot bit and all hardening bits, and the bit wins the vote.
  lemma EnableCompletes(o: Otp, fp: seq<byte>, slot: int)
    requires WellFormed(o) && SecurityPlan(o, Enable, fp, slot).Ok?
    ensures var after := BurnAll(o, SecurityPlan(o, Enable, fp, slot).value);
            && AllHold(after.critical, LOCKABLE_BITS)
            && 0 in Vote(after.critical, 3) && HARDEN_BITS <= Vote(after.critical, 3)
  {
    hide SecurityPlan, StagePlan, Grows, BurnAll, Vote;
    var ws := SecurityPlan(o, Enable, fp, slot).value;
    CompletedStage(o, Enable, fp, slot);
    HardenedForEnable(o, fp, slot);
    SafeAlongPlan(o, Enable, fp, slot, |ws|);
    assert ws[..|ws|] == ws;
    var after := BurnAll(o, ws);
    GrowsKeeps(o, after);
    forall i | 0 <= i < |after.critical|
      ensures LOCKABLE_BITS <= after.critical[i]
    {
      assert {0} <= after.critical[i] && HARDEN_BITS <= after.critical[i];
      assert LOCKABLE_BITS == {0} + HARDEN_BITS;
    }
    VoteOfAll(after.critical, LOCKABLE_BITS, 3);
  }

  lemma HardenedForEnable(o: Otp, fp: seq<byte>, slot: int)
    requires WellFormed(o) && SecurityPlan(o, Enable, fp, slot).Ok?
    ensures AllHold(o.critical, HARDEN_BITS)
  {
    hide Matches, RawWrites;
  }

  lemma GrowsKeeps(o: Otp, after: Otp)
    requires Grows(o, after)
    ensures |after.critical| == |o.critical| && forall i | 0 <= i < |o.critical| :: o.critical[i] <= after.critical[i]
  {
  }

  // What every copy holds wins any vote that all copies can win.
  lemma VoteOfAll(rows: seq<Row>, bits: Row, threshold: nat)
    requires AllHold(rows, bits) && threshold <= |rows| && forall b <- bits :: b < 24
    ensures bits <= Vote(rows, threshold)
  {
    forall b | b in bits
      ensures b in Vote(rows, threshold)
    {
      forall i | 0 <= i < |rows|
        ensures b in rows[i]
      {
        assert bits <= rows[i];
      }
      CountBounds(rows, b);
    }
  }

  // ---------------------------------------------------------------- acceptance

  // The slot m is the one trusted slot that holds the key.
  ghost predicate OnlyMatch(o: Otp, key: seq<Half>, m: nat)
    requires WellFormed(o)
  {
    m < 4 && Matching(o.words, o.flags, key, m) && forall n: nat | n < 4 && Matching(o.words, o.flags, key, n) :: n == m
  }

  // The boards on which a stage makes a plan.
  ghost predicate Accepts(o: Otp, action: Action, key: seq<Half>, slot: nat)
    requires WellFormed(o) && |key| == 16 && slot < 4
  {
    match action
    case LoadKey =>
      && !Revoking(o.flags, slot)
      && forall i | 0 <= i < 16 :: o.words[16 * slot + i].Blank? || HoldsWord(o.words, slot, i, key[i])
    case Harden => exists m: nat :: OnlyMatch(o, key, m)
    case Enable => exists m: nat :: OnlyMatch(o, key, m) && AllHold(o.critical, HARDEN_BITS) && AllHold(o.flags, {m})
    case Lock =>
      && (exists m: nat :: OnlyMatch(o, key, m) && AllHold(o.critical, LOCKABLE_BITS) && TrustedSlots(o.flags) == {m})
      && forall i | 0 <= i < 2 :: o.locks[i] <= BOOT_LOCK
    case Unknown => false
  }

  lemma OnlyMatchIff(o: Otp, key: seq<Half>)
    requires WellFormed(o)
    ensures var ms := Matches(o.words, o.flags, key);
            && (|ms| == 1 <==> exists m: nat :: OnlyMatch(o, key, m))
            && forall m: nat :: OnlyMatch(o, key, m) ==> ms == [m]
  {
    hide Matching;
    var ms := Matches(o.words, o.flags, key);
    if |ms| == 1 {
      assert ms[0] in ms;
      assert OnlyMatch(o, key, ms[0]);
    }
  }

  lemma {:induction false} LockWritesAccept(locks: seq<Row>, i: nat)
    requires i <= |locks|
    ensures LockWrites(locks, i).Ok? <==> forall j | i <= j < |locks| :: locks[j] <= BOOT_LOCK
    decreases |locks| - i
  {
    if i < |locks| {
      LockWritesAccept(locks, i + 1);
    }
  }

  lemma StageAcceptedIff(o: Otp, action: Action, key: seq<Half>, slot: nat)
    requires WellFormed(o) && |key| == 16 && slot < 4
    ensures StagePlan(o, action, key, slot).Ok? <==> Accepts(o, action, key, slot)
  {
    hide Matches, OnlyMatch, RawWrites, WordWrites, LockWrites, HoldsWord, TrustedSlots;
    OnlyMatchIff(o, key);
    WordWritesAccept(o.words, slot, key, 0);
    LockWritesAccept(o.locks, 0);
  }

  // Where a stage still has something to write: page 1 (index 0) or page 2 (index 1).
  ghost predicate Needs(o: Otp, action: Action, key: seq<Half>, slot: nat, page: nat)
    requires WellFormed(o) && |key| == 16 && slot < 4 && page < 2
  {
    match action
    case LoadKey => if page == 0 then !AllHold(o.flags, {slot}) else !Stores(o.words, slot, key)
    case Harden => page == 0 && !AllHold(o.critical, HARDEN_BITS)
    case Enable => page == 0 && !AllHold(o.critical, {0})
    case Lock =>
      || (page == 0 && !AllHold(o.flags, Revocation(TrustedSlots(o.flags))))
      || Effective(o.locks[page]) != LOCKED_COPY
    case Unknown => false
  }

  predicate PagesOpen(locks: seq<Row>, ws: seq<Write>)
    requires |locks| == 2
  {
    forall w <- ws :: PageOpen(locks, w)
  }

  lemma PagesOpenAppend(locks: seq<Row>, a: seq<Write>, b: seq<Write>)
    requires |locks| == 2
    ensures PagesOpen(locks, a + b) <==> PagesOpen(locks, a) && PagesOpen(locks, b)
  {
    hide PageOpen;
    forall w | w in a || w in b
      ensures w in a + b
    {
    }
  }

  lemma RawPages(locks: seq<Row>, reg: Register, rows: seq<Row>, bits: Row)
    requires |locks| == 2 && reg != Locks
    ensures PagesOpen(locks, RawWrites(reg, rows, bits, 0)) <==> AllHold(rows, bits) || Open(locks, 0)
  {
    hide Open;
    RawWritesShape(reg, rows, bits, 0);
    var ws := RawWrites(reg, rows, bits, 0);
    if ws != [] {
      assert ws[0] in ws;
    }
  }

  lemma WordPages(o: Otp, slot: nat, key: seq<Half>)
    requires WellFormed(o) && slot < 4 && |key| == 16 && WordWrites(o.words, slot, key, 0).Ok?
    ensures PagesOpen(o.locks, WordWrites(o.words, slot, key, 0).value)
            <==> Stores(o.words, slot, key) || Open(o.locks, 1)
  {
    hide Open, HoldsWord;
    WordWritesNothingIff(o.words, slot, key, 0);
    WordWritesValue(o.words, slot, key, 0);
    var ws := WordWrites(o.words, slot, key, 0).value;
    if ws != [] {
      assert ws[0] in ws;
    }
  }

  lemma {:induction false} LockPages(locks: seq<Row>, i: nat)
    requires i <= |locks| == 2 && LockWrites(locks, i).Ok?
    ensures PagesOpen(locks, LockWrites(locks, i).value) <==>
              forall j | i <= j < 2 :: Effective(locks[j]) == LOCKED_COPY || Open(locks, j)
    decreases 2 - i
  {
    hide Effective, Open, PagesOpen;
    if i == 2 {
      NoPages(locks);
    } else {
      LockPages(locks, i + 1);
      if BOOT_LOCK <= locks[i] {
        assert locks[i] + BOOT_LOCK == locks[i];
        BootLockTakesEffect(locks[i]);
      }
      if Effective(locks[i]) != LOCKED_COPY {
        var w := RawWrite(Locks, i, locks[i] + BOOT_LOCK);
        PagesOpenAppend(locks, [w], LockWrites(locks, i + 1).value);
        OnePage(locks, w);
      }
    }
  }

  lemma NoPages(locks: seq<Row>)
    requires |locks| == 2
    ensures PagesOpen(locks, [])
  {
  }

  lemma OnePage(locks: seq<Row>, w: Write)
    requires |locks| == 2
    ensures PagesOpen(locks, [w]) <==> Open(locks, LockIndex(w))
  {
    hide Open;
    assert w in [w];
  }

  lemma NeededPages(o: Otp, action: Action, key: seq<Half>, slot: nat)
    requires WellFormed(o) && |key| == 16 && slot < 4 && StagePlan(o, action, key, slot).Ok?
    ensures PagesOpen(o.locks, StagePlan(o, action, key, slot).value) <==>
              && (Needs(o, action, key, slot, 0) ==> Open(o.locks, 0))
              && (Needs(o, action, key, slot, 1) ==> Open(o.locks, 1))
  {
    hide Matches, TrustedSlots, Effective, Open, RawWrites, WordWrites, LockWrites, Revocation;
    hide Stores, AllHold, PagesOpen;
    match action
    case LoadKey =>
      var flags := RawWrites(Flags, o.flags, {slot}, 0);
      WordPages(o, slot, key);
      RawPages(o.locks, Flags, o.flags, {slot});
      PagesOpenAppend(o.locks, WordWrites(o.words, slot, key, 0).value, flags);
    case Harden => RawPages(o.locks, Critical, o.critical, HARDEN_BITS);
    case Enable => RawPages(o.locks, Critical, o.critical, {0});
    case Lock =>
      var bits := Revocation(TrustedSlots(o.flags));
      RawPages(o.locks, Flags, o.flags, bits);
      LockPages(o.locks, 0);
      PagesOpenAppend(o.locks, RawWrites(Flags, o.flags, bits, 0), LockWrites(o.locks, 0).value);
    case Unknown =>
  }

  predicate ValidRequest(fp: seq<byte>, slot: int) {
    0 <= slot < 4 && |fp| == 32 && exists i | 0 <= i < 32 :: fp[i] != 0
  }

  // A plan is made if and only if the request is valid, no access key guards the pages, the stage accepts
  // the board, and every page on which something is missing is still open.
  lemma PlanAcceptedIff(o: Otp, action: Action, fp: seq<byte>, slot: int)
    requires WellFormed(o)
    ensures SecurityPlan(o, action, fp, slot).Ok? <==>
              && ValidRequest(fp, slot) && (forall i | 0 <= i < |o.keyLocks| :: o.keyLocks[i] == {})
              && Accepts(o, action, KeyWords(fp), slot)
              && (Needs(o, action, KeyWords(fp), slot, 0) ==> Open(o.locks, 0))
              && (Needs(o, action, KeyWords(fp), slot, 1) ==> Open(o.locks, 1))
  {
    hide StagePlan, PageOpen, Accepts, Needs, Open, KeyWords;
    if ValidRequest(fp, slot) {
      var key := KeyWords(fp);
      StageAcceptedIff(o, action, key, slot);
      if StagePlan(o, action, key, slot).Ok? {
        NeededPages(o, action, key, slot);
        AllPages(o.locks, StagePlan(o, action, key, slot).value);
      }
    }
  }

  lemma AllPages(locks: seq<Row>, ws: seq<Write>)
    requires |locks| == 2
    ensures PagesOpen(locks, ws) <==> forall i | 0 <= i < |ws| :: PageOpen(locks, ws[i])
  {
    hide PageOpen;
    forall i | 0 <= i < |ws|
      ensures ws[i] in ws
    {
    }
  }

  // A page is closed as soon as two of the three copies of its lock row forbid BOOTSEL to write it.
  lemma TwoCopiesClose(locks: seq<Row>, page: nat, i: nat, j: nat, b: nat)
    requires page < |locks| && i < j < 3 && (b == 4 || b == 5)
    requires b + 8 * i in locks[page] && b + 8 * j in locks[page]
    ensures !Open(locks, page)
  {
    var copies := [Shifted(locks[page], 0), Shifted(locks[page], 8), Shifted(locks[page], 16)];
    var last := [copies[2]];
    assert b in copies[i] && b in copies[j];
    assert last[1..] == [] && copies[1..][1..] == last && copies[1..][0] == copies[1];
    assert Count(last, b) == if b in copies[2] then 1 else 0;
    assert Count(copies[1..], b) == (if b in copies[1] then 1 else 0) + Count(last, b);
    assert Count(copies, b) >= 2;
  }

  // ---------------------------------------------------------------- provisioning a blank board

  // What a plan of the action leaves alone, and what it may add to the valid and revoked bits.
  ghost predicate Frame(o: Otp, after: Otp, action: Action, slot: nat)
    requires WellFormed(o) && WellFormed(after)
  {
    && after.keyLocks == o.keyLocks
    && (action != Harden && action != Enable ==> after.critical == o.critical)
    && (action != Lock ==> after.locks == o.locks)
    && (action != LoadKey && action != Lock ==> after.flags == o.flags)
    && (action == LoadKey ==> forall i | 0 <= i < 3 :: after.flags[i] <= o.flags[i] + {slot})
    && (action != LoadKey ==> after.words == o.words)
  }

  lemma WriteFrame(o: Otp, action: Action, key: seq<Half>, slot: nat, w: Write)
    requires WellFormed(o) && |key| == 16 && slot < 4 && Permitted(o, action, key, slot, w)
    ensures Frame(o, Burn(o, w), action, slot)
  {
    hide Stores, Matching, AllHold, Revoking, TrustedSlots, Revocation;
  }

  lemma {:induction false} PlanFrame(o: Otp, action: Action, fp: seq<byte>, slot: int, k: nat)
    requires WellFormed(o) && SecurityPlan(o, action, fp, slot).Ok? && k <= |SecurityPlan(o, action, fp, slot).value|
    ensures 0 <= slot && Frame(o, BurnAll(o, SecurityPlan(o, action, fp, slot).value[..k]), action, slot)
    decreases k
  {
    hide StagePlan, PageOpen, Permitted, Burn;
    var ws := SecurityPlan(o, action, fp, slot).value;
    if k > 0 {
      FirstWritePermitted(o, action, fp, slot);
      WriteFrame(o, action, KeyWords(fp), slot, ws[0]);
      ResumeAfterOne(o, action, fp, slot);
      PlanFrame(Burn(o, ws[0]), action, fp, slot, k - 1);
      assert ws[..k][1..] == ws[1..][..k - 1];
    }
  }

  // The board after a stage that is not interrupted.
  function Completed(o: Otp, action: Action, fp: seq<byte>, slot: int): (after: Otp)
    requires WellFormed(o)
    ensures WellFormed(after)
  {
    var plan := SecurityPlan(o, action, fp, slot);
    if plan.Err? then o else BurnAll(o, plan.value)
  }

  lemma StageLeaves(o: Otp, action: Action, fp: seq<byte>, slot: int)
    requires WellFormed(o) && SecurityPlan(o, action, fp, slot).Ok?
    ensures 0 <= slot < 4 && |fp| == 32
    ensures var after := Completed(o, action, fp, slot);
            Achieved(after, action, KeyWords(fp), slot) && Frame(o, after, action, slot)
  {
    hide SecurityPlan, Achieved, Frame;
    var ws := SecurityPlan(o, action, fp, slot).value;
    CompletedStage(o, action, fp, slot);
    PlanFrame(o, action, fp, slot, |ws|);
    assert ws[..|ws|] == ws;
  }

  // One key in one slot, valid in every copy, and nothing else valid or revoked.
  ghost predicate OneKey(o: Otp, key: seq<Half>, slot: nat)
    requires WellFormed(o)
  {
    && slot < 4 && |key| == 16 && Stores(o.words, slot, key)
    && (forall i | 0 <= i < 3 :: o.flags[i] == {slot})
    && (forall i | 0 <= i < 2 :: o.keyLocks[i] == {} && o.locks[i] == {})
  }

  lemma OneKeyIsOnlyMatch(o: Otp, key: seq<Half>, slot: nat)
    requires WellFormed(o) && OneKey(o, key, slot)
    ensures OnlyMatch(o, key, slot) && TrustedSlots(o.flags) == {slot} && AllHold(o.flags, {slot})
  {
    hide Stores;
    forall s: nat | s < 4
      ensures Trusted(o.flags, s) <==> s == slot
    {
      CountBounds(o.flags, s);
      CountBounds(o.flags, s + 8);
    }
    hide Trusted;
  }

  lemma ClearRowIsOpen(locks: seq<Row>, page: nat)
    requires page < |locks| && locks[page] == {}
    ensures Open(locks, page) && Effective(locks[page]) != LOCKED_COPY
  {
    var copies := [Shifted({}, 0), Shifted({}, 8), Shifted({}, 16)];
    forall b: nat
      ensures Count(copies, b) == 0
    {
      CountBounds(copies, b);
    }
    assert 0 in LOCKED_COPY && 0 !in Effective(locks[page]);
  }

  lemma LoadKeyOnBlank(fp: seq<byte>, slot: int)
    requires ValidRequest(fp, slot)
    ensures WellFormed(BLANK_BOARD) && SecurityPlan(BLANK_BOARD, LoadKey, fp, slot).Ok?
    ensures var o := Completed(BLANK_BOARD, LoadKey, fp, slot);
            OneKey(o, KeyWords(fp), slot) && o.critical == BLANK_BOARD.critical
  {
    hide SecurityPlan, Needs, Open, Stores, Completed;
    ClearRowIsOpen(BLANK_BOARD.locks, 0);
    ClearRowIsOpen(BLANK_BOARD.locks, 1);
    PlanAcceptedIff(BLANK_BOARD, LoadKey, fp, slot);
    StageLeaves(BLANK_BOARD, LoadKey, fp, slot);
    var o := Completed(BLANK_BOARD, LoadKey, fp, slot);
    forall i | 0 <= i < 3
      ensures o.flags[i] == {slot}
    {
      assert {slot} <= o.flags[i] && o.flags[i] <= BLANK_BOARD.flags[i] + {slot};
    }
  }

  lemma HardenAfterLoad(o: Otp, fp: seq<byte>, slot: int)
    requires WellFormed(o) && ValidRequest(fp, slot) && OneKey(o, KeyWords(fp), slot)
    ensures SecurityPlan(o, Harden, fp, slot).Ok?
    ensures var after := Completed(o, Harden, fp, slot);
            OneKey(after, KeyWords(fp), slot) && AllHold(after.critical, HARDEN_BITS)
  {
    hide SecurityPlan, Needs, Open, Stores, Completed, OnlyMatch, AllHold;
    OneKeyIsOnlyMatch(o, KeyWords(fp), slot);
    ClearRowIsOpen(o.locks, 0);
    ClearRowIsOpen(o.locks, 1);
    PlanAcceptedIff(o, Harden, fp, slot);
    StageLeaves(o, Harden, fp, slot);
  }

  lemma EnableAfterHarden(o: Otp, fp: seq<byte>, slot: int)
    requires WellFormed(o) && ValidRequest(fp, slot) && OneKey(o, KeyWords(fp), slot)
    requires AllHold(o.critical, HARDEN_BITS)
    ensures SecurityPlan(o, Enable, fp, slot).Ok?
    ensures var after := Completed(o, Enable, fp, slot);
            OneKey(after, KeyWords(fp), slot) && AllHold(after.critical, LOCKABLE_BITS)
  {
    hide SecurityPlan, Needs, Open, Stores, OnlyMatch, AllHold;
    OneKeyIsOnlyMatch(o, KeyWords(fp), slot);
    ClearRowIsOpen(o.locks, 0);
    ClearRowIsOpen(o.locks, 1);
    PlanAcceptedIff(o, Enable, fp, slot);
    StageLeaves(o, Enable, fp, slot);
    EnableCompletes(o, fp, slot);
  }

  lemma LockAfterEnable(o: Otp, fp: seq<byte>, slot: int)
    requires WellFormed(o) && ValidRequest(fp, slot) && OneKey(o, KeyWords(fp), slot)
    requires AllHold(o.critical, LOCKABLE_BITS)
    ensures SecurityPlan(o, Lock, fp, slot).Ok?
    ensures var after := Completed(o, Lock, fp, slot);
            && Locked(after) && AllHold(after.critical, LOCKABLE_BITS) && TrustedSlots(after.flags) == {slot as nat}
            && Matching(after.words, after.flags, KeyWords(fp), slot) && OthersRevoked(after.flags, slot)
  {
    hide SecurityPlan, Needs, Open, Stores, OnlyMatch, AllHold, Matching, Locked, Revoked;
    OneKeyIsOnlyMatch(o, KeyWords(fp), slot);
    ClearRowIsOpen(o.locks, 0);
    ClearRowIsOpen(o.locks, 1);
    PlanAcceptedIff(o, Lock, fp, slot);
    StageLeaves(o, Lock, fp, slot);
    LockCompletes(o, fp, slot);
    LockLeavesOneKey(o, fp, slot);
    var after := Completed(o, Lock, fp, slot);
    var m: nat :| m < 4 && TrustedSlots(o.flags) == TrustedSlots(after.flags) == {m}
      && Matching(after.words, after.flags, KeyWords(fp), m) && OthersRevoked(after.flags, m);
    assert m in {slot as nat};
  }

  // The four stages, one after the other, take a blank board to one that is locked, boots only firmware
  // signed with the key, and can never trust another.
  lemma ProvisioningSucceeds(fp: seq<byte>, slot: int)
    requires ValidRequest(fp, slot)
    ensures WellFormed(BLANK_BOARD)
    ensures var loaded := Completed(BLANK_BOARD, LoadKey, fp, slot);
            var hardened := Completed(loaded, Harden, fp, slot);
            var enabled := Completed(hardened, Enable, fp, slot);
            var o := Completed(enabled, Lock, fp, slot);
            && Locked(o) && {0, 2, 4, 5, 6} <= Vote(o.critical, 3) && TrustedSlots(o.flags) == {slot as nat}
            && Matching(o.words, o.flags, KeyWords(fp), slot) && OthersRevoked(o.flags, slot)
  {
    hide SecurityPlan, Completed, OneKey, AllHold, Locked, Matching, OthersRevoked, TrustedSlots, Vote;
    LoadKeyOnBlank(fp, slot);
    var loaded := Completed(BLANK_BOARD, LoadKey, fp, slot);
    HardenAfterLoad(loaded, fp, slot);
    var hardened := Completed(loaded, Harden, fp, slot);
    EnableAfterHarden(hardened, fp, slot);
    var enabled := Completed(hardened, Enable, fp, slot);
    LockAfterEnable(enabled, fp, slot);
    VoteOfAll(Completed(enabled, Lock, fp, slot).critical, LOCKABLE_BITS, 3);
  }
}
