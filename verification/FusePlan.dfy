/** Staged, write-once programming of the RP2350 boot fuses (firmware.py).

    A raw row is the set of its programmed bits, so programming is union and
    nothing can ever be cleared. A fingerprint word lives in an
    error-corrected row, which can be written once. */
module FusePlan {

  import opened Bytes

  type Half = x: int | 0 <= x < 0x1_0000

  type Row = set<nat>

  // An error-corrected row. The decoded value can be zero in a row that is not blank.
  datatype Word = Blank | Coded(value: Half) | Unreadable

  datatype Otp = Otp(critical: seq<Row>, flags: seq<Row>, locks: seq<Row>, keyLocks: seq<Row>, words: seq<Word>)

  ghost predicate WellFormed(o: Otp) {
    |o.critical| == 8 && |o.flags| == 3 && |o.locks| == 2 && |o.keyLocks| == 2 && |o.words| == 64
  }

  const HARDEN_BITS: Row := {2, 4, 5, 6}                            // 0x74
  const LOCKABLE_BITS: Row := {0, 2, 4, 5, 6}                       // 0x75
  const BOOT_LOCK: Row := {0, 2, 4, 8, 10, 12, 16, 18, 20}          // 0x151515
  const LOCKED_COPY: Row := {0, 2, 4}                               // 0x15

  const BYTE_BITS: Row := {0, 1, 2, 3, 4, 5, 6, 7}
  const REVOKE_BITS: Row := {8, 9, 10, 11}

  datatype Register = Critical | Flags | Locks

  datatype Write = RawWrite(register: Register, index: nat, value: Row) | WordWrite(index: nat, word: Half)

  datatype Action = LoadKey | Harden | Enable | Lock | Unknown

  datatype PlanError =
    | InvalidKeyOrSlot | AccessKeyPolicy | SlotRevoked | UnreadableWord | SlotOccupied | NoUniqueMatch | NotHardened
    | KeyNotFinished | NotEnabled | OtherKeyTrusted | IncompatibleLock | PageLocked | UnknownAction

  datatype Result<+T> = Ok(value: T) | Err(error: PlanError)

  // ---------------------------------------------------------------- reading

  function Count(rows: seq<Row>, b: nat): nat {
    if rows == [] then 0 else (if b in rows[0] then 1 else 0) + Count(rows[1..], b)
  }

  function Vote(rows: seq<Row>, threshold: nat): Row {
    set b: nat | 0 <= b < 24 && Count(rows, b) >= threshold
  }

  // One of the three redundant bytes of a page-lock row.
  function Shifted(row: Row, shift: nat): (copy: Row)
    ensures forall b: nat :: b in copy <==> b < 8 && b + shift in row
  {
    set b | b in BYTE_BITS && b + shift in row
  }

  function Effective(row: Row): Row {
    Vote([Shifted(row, 0), Shifted(row, 8), Shifted(row, 16)], 2)
  }

  predicate Trusted(flags: seq<Row>, slot: nat) {
    slot in Vote(flags, 2) && slot + 8 !in Vote(flags, 2)
  }

  predicate Readable(w: Word) {
    !w.Unreadable?
  }

  function Read(w: Word): Half {
    match w
    case Blank => 0
    case Coded(v) => v
    case Unreadable => 0
  }

  predicate HoldsWord(words: seq<Word>, slot: nat, i: nat, value: Half)
    requires slot < 4 && i < 16 && |words| == 64
  {
    Readable(words[16 * slot + i]) && Read(words[16 * slot + i]) == value
  }

  // All sixteen fingerprint words of the slot can be read and are those of `key`.
  predicate Stores(words: seq<Word>, slot: nat, key: seq<Half>)
    requires slot < 4 && |words| == 64
  {
    |key| == 16 &&
    forall i | 0 <= i < 16 :: HoldsWord(words, slot, i, key[i])
  }

  function KeyWords(fp: seq<byte>): (key: seq<Half>)
    requires |fp| == 32
    ensures |key| == 16
  {
    seq(16, i requires 0 <= i < 16 => fp[2 * i] as int + 256 * fp[2 * i + 1] as int)
  }

  predicate Matching(words: seq<Word>, flags: seq<Row>, key: seq<Half>, slot: nat)
    requires slot < 4 && |words| == 64
  {
    Stores(words, slot, key) && Trusted(flags, slot)
  }

  function Matches(words: seq<Word>, flags: seq<Row>, key: seq<Half>): (ms: seq<nat>)
    requires |words| == 64
    ensures forall m | m in ms :: m < 4 && Matching(words, flags, key, m)
    ensures forall m: nat | m < 4 && Matching(words, flags, key, m) :: m in ms
  {
    (if Matching(words, flags, key, 0) then [0] else []) + (if Matching(words, flags, key, 1) then [1] else []) +
    (if Matching(words, flags, key, 2) then [2] else []) + (if Matching(words, flags, key, 3) then [3] else [])
  }

  function TrustedSlots(flags: seq<Row>): set<nat> {
    set s: nat | 0 <= s < 4 && Trusted(flags, s)
  }

  // ---------------------------------------------------------------- planning

  // Writes for rows i.. that still lack some of `bits`, in row order.
  function RawWrites(reg: Register, rows: seq<Row>, bits: Row, i: nat): seq<Write>
    requires i <= |rows|
    decreases |rows| - i
  {
    if i == |rows| then []
    else (if bits <= rows[i] then [] else [RawWrite(reg, i, rows[i] + bits)]) + RawWrites(reg, rows, bits, i + 1)
  }

  // Writes for words i.. of the slot; an occupied word must already hold the wanted value.
  function WordWrites(words: seq<Word>, slot: nat, key: seq<Half>, i: nat): Result<seq<Write>>
    requires |words| == 64 && slot < 4 && |key| == 16 && i <= 16
    decreases 16 - i
  {
    if i == 16 then Ok([])
    else
      var w := words[16 * slot + i];
      if w.Unreadable? then Err(UnreadableWord)
      else if w.Coded? && w.value != key[i] then Err(SlotOccupied)
      else
        var rest := WordWrites(words, slot, key, i + 1);
        if rest.Err? then rest
        else if w.Blank? && key[i] != 0 then Ok([WordWrite(16 * slot + i, key[i])] + rest.value)
        else rest
  }

  function LockWrites(locks: seq<Row>, i: nat): Result<seq<Write>>
    requires i <= |locks|
    decreases |locks| - i
  {
    if i == |locks| then Ok([])
    else if !(locks[i] <= BOOT_LOCK) then Err(IncompatibleLock)
    else
      var rest := LockWrites(locks, i + 1);
      if rest.Err? then rest
      else if Effective(locks[i]) != LOCKED_COPY && !(BOOT_LOCK <= locks[i]) then
        Ok([RawWrite(Locks, i, locks[i] + BOOT_LOCK)] + rest.value)
      else rest
  }

  // The page lock that guards a write: page 2 for fingerprints and its own lock row, page 1 otherwise.
  function LockIndex(w: Write): nat {
    if w.WordWrite? || (w.register == Locks && w.index == 1) then 1 else 0
  }

  // BOOTSEL may still write the page.
  predicate Open(locks: seq<Row>, page: nat)
    requires page < |locks|
  {
    4 !in Effective(locks[page]) && 5 !in Effective(locks[page])
  }

  predicate PageOpen(locks: seq<Row>, w: Write)
    requires |locks| == 2
  {
    Open(locks, LockIndex(w))
  }

  function StagePlan(o: Otp, action: Action, key: seq<Half>, slot: nat): Result<seq<Write>>
    requires WellFormed(o) && |key| == 16 && slot < 4
  {
    if action == LoadKey then
      if exists i | 0 <= i < |o.flags| :: slot + 8 in o.flags[i] then Err(SlotRevoked)
      else
        var words := WordWrites(o.words, slot, key, 0);
        if words.Err? then words else Ok(words.value + RawWrites(Flags, o.flags, {slot}, 0))
    else
      var ms := Matches(o.words, o.flags, key);
      if |ms| != 1 then Err(NoUniqueMatch)
      else if action == Harden then Ok(RawWrites(Critical, o.critical, HARDEN_BITS, 0))
      else if action == Enable then
        if exists i | 0 <= i < |o.critical| :: !(HARDEN_BITS <= o.critical[i]) then Err(NotHardened)
        else if exists i | 0 <= i < |o.flags| :: ms[0] !in o.flags[i] then Err(KeyNotFinished)
        else Ok(RawWrites(Critical, o.critical, {0}, 0))
      else if action == Lock then
        if exists i | 0 <= i < |o.critical| :: !(LOCKABLE_BITS <= o.critical[i]) then Err(NotEnabled)
        else if TrustedSlots(o.flags) != {ms[0]} then Err(OtherKeyTrusted)
        else
          var locks := LockWrites(o.locks, 0);
          if locks.Err? then locks
          else Ok(RawWrites(Flags, o.flags, Revocation(TrustedSlots(o.flags)), 0) + locks.value)
      else Err(UnknownAction)
  }

  function Revocation(trusted: set<nat>): (bits: Row)
    ensures forall b: nat :: b in bits <==> 8 <= b < 12 && b - 8 !in trusted
  {
    set b | b in REVOKE_BITS && b - 8 !in trusted
  }

  function SecurityPlan(o: Otp, action: Action, fp: seq<byte>, slot: int): Result<seq<Write>>
    requires WellFormed(o)
  {
    if !(0 <= slot < 4) || |fp| != 32 || (forall i | 0 <= i < |fp| :: fp[i] == 0) then Err(InvalidKeyOrSlot)
    else if exists i | 0 <= i < |o.keyLocks| :: o.keyLocks[i] != {} then Err(AccessKeyPolicy)
    else
      var plan := StagePlan(o, action, KeyWords(fp), slot);
      if plan.Err? then plan
      else if exists i | 0 <= i < |plan.value| :: !PageOpen(o.locks, plan.value[i]) then Err(PageLocked)
      else plan
  }

  // ---------------------------------------------------------------- burning

  function Program(rows: seq<Row>, i: nat, value: Row): (r: seq<Row>)
    ensures |r| == |rows|
  {
    if i < |rows| then rows[i := rows[i] + value] else rows
  }

  // One atomic row write. Bits accumulate; an error-corrected row that is
  // already programmed with something else is spoiled.
  function Burn(o: Otp, w: Write): (r: Otp)
    ensures WellFormed(o) ==> WellFormed(r)
  {
    match w
    case RawWrite(Critical, i, v) => o.(critical := Program(o.critical, i, v))
    case RawWrite(Flags, i, v) => o.(flags := Program(o.flags, i, v))
    case RawWrite(Locks, i, v) => o.(locks := Program(o.locks, i, v))
    case WordWrite(i, v) =>
      if i >= |o.words| then o
      else o.(words := o.words[i := if o.words[i].Blank? || o.words[i] == Coded(v) then Coded(v) else Unreadable])
  }

  function BurnAll(o: Otp, ws: seq<Write>): (r: Otp)
    ensures WellFormed(o) ==> WellFormed(r)
    decreases |ws|
  {
    if ws == [] then o else BurnAll(Burn(o, ws[0]), ws[1..])
  }

  // ---------------------------------------------------------------- voting

  lemma {:induction false} CountBounds(rows: seq<Row>, b: nat)
    ensures Count(rows, b) <= |rows|
    ensures (forall i | 0 <= i < |rows| :: b in rows[i]) ==> Count(rows, b) == |rows|
    ensures Count(rows, b) > 0 ==> exists i :: 0 <= i < |rows| && b in rows[i]
  {
    if rows != [] {
      CountBounds(rows[1..], b);
      if Count(rows[1..], b) > 0 {
        var i :| 0 <= i < |rows[1..]| && b in rows[1..][i];
        assert b in rows[i + 1];
      }
    }
  }

  lemma {:induction false} CountOfProgrammed(rows: seq<Row>, i: nat, value: Row, b: nat)
    requires i < |rows|
    ensures Count(Program(rows, i, value), b) >= Count(rows, b)
    ensures b !in value ==> Count(Program(rows, i, value), b) == Count(rows, b)
  {
    var after := Program(rows, i, value);
    if i == 0 {
      assert after[1..] == rows[1..];
    } else {
      assert after[1..] == Program(rows[1..], i - 1, value);
      CountOfProgrammed(rows[1..], i - 1, value, b);
    }
  }
}
