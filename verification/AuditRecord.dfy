/** The journal record of src/fido/audit.c: one byte array holding a 41-byte header (version,
    next sequence number, first kept sequence number, epoch hash) and a ring of 128 slots of
    20 bytes, mutated in place and written back whole. */
module AuditRecord {
  import opened Bytes
  import opened AuditLog

  const HEADER: nat := 41
  const SIZE: nat := HEADER + SLOTS * 20

  function NextSeq(r: seq<byte>): nat
    requires |r| == SIZE
  {
    FromLe32(r[1..5])
  }

  function StartSeq(r: seq<byte>): nat
    requires |r| == SIZE
  {
    FromLe32(r[5..9])
  }

  function Epoch(r: seq<byte>): Digest
    requires |r| == SIZE
  {
    r[9..41]
  }

  function Offset(n: nat): (o: nat)
    ensures HEADER <= o <= SIZE - 20
  {
    HEADER + (n % SLOTS) * 20
  }

  function Slot(r: seq<byte>, n: nat): Entry
    requires |r| == SIZE
  {
    r[Offset(n)..Offset(n) + 20]
  }

  // The checks load makes on a stored record.
  predicate LoadOk(r: seq<byte>) {
    && |r| == SIZE && r[0] == 1
    && StartSeq(r) <= NextSeq(r) <= StartSeq(r) + SLOTS
    && forall n | StartSeq(r) <= n < NextSeq(r) :: FromLe32(Slot(r, n)[..4]) == n
  }

  // The record carries the log: header numbers, epoch hash of the evicted entries, and the
  // kept entries in their slots.
  ghost predicate Carries(sha: seq<byte> -> Digest, genesis: Digest, r: seq<byte>, log: Log) {
    && |r| == SIZE && r[0] == 1 && WellFormed(log)
    && NextSeq(r) == |log.history| && StartSeq(r) == log.start
    && Epoch(r) == Fold(sha, genesis, log.history[..log.start])
    && forall n | log.start <= n < |log.history| :: Slot(r, n) == log.history[n]
  }

  lemma CarriedLoads(sha: seq<byte> -> Digest, genesis: Digest, r: seq<byte>, log: Log)
    requires Carries(sha, genesis, r, log)
    ensures LoadOk(r)
  {
  }

  lemma CarriedHeader(sha: seq<byte> -> Digest, genesis: Digest, r: seq<byte>, log: Log)
    requires Carries(sha, genesis, r, log)
    ensures |r| == SIZE && WellFormed(log) && NextSeq(r) == |log.history| && StartSeq(r) == log.start
    ensures log.start <= |log.history| <= U32_MAX && |log.merged| == |log.history|
    ensures Epoch(r) == Fold(sha, genesis, log.history[..log.start])
  {
  }

  lemma CarriedSlots(sha: seq<byte> -> Digest, genesis: Digest, r: seq<byte>, log: Log)
    requires Carries(sha, genesis, r, log)
    ensures |r| == SIZE && log.start <= |log.history|
    ensures forall n | log.start <= n < |log.history| :: Slot(r, n) == log.history[n]
  {
  }

  // ---------------------------------------------------------------- edits

  lemma SlotsApart(n: nat, m: nat)
    requires n < m < n + SLOTS
    ensures n % SLOTS != m % SLOTS
    ensures Offset(n) + 20 <= Offset(m) || Offset(m) + 20 <= Offset(n)
  {
  }

  // Overwriting bytes inside one slot changes no header field and no other slot of a window.
  lemma SlotEdit(r: seq<byte>, n: nat, k: nat, src: seq<byte>)
    requires |r| == SIZE && k + |src| <= 20
    ensures var r' := Splice(r, Offset(n) + k, src);
            && r'[..HEADER] == r[..HEADER]
            && Slot(r', n) == Splice(Slot(r, n), k, src)
            && forall m: nat | n < m < n + SLOTS || m < n < m + SLOTS :: Slot(r', m) == Slot(r, m)
  {
    var r' := Splice(r, Offset(n) + k, src);
    forall m: nat | n < m < n + SLOTS || m < n < m + SLOTS
      ensures Slot(r', m) == Slot(r, m)
    {
      if n < m { SlotsApart(n, m); } else { SlotsApart(m, n); }
    }
  }

  lemma SameHeader(r: seq<byte>, r': seq<byte>)
    requires |r| == |r'| == SIZE && r'[..HEADER] == r[..HEADER]
    ensures r'[0] == r[0] && NextSeq(r') == NextSeq(r) && StartSeq(r') == StartSeq(r) && Epoch(r') == Epoch(r)
  {
    assert r'[0] == r'[..HEADER][0] == r[..HEADER][0];
    assert r'[1..5] == r'[..HEADER][1..5] == r[..HEADER][1..5] == r[1..5];
    assert r'[5..9] == r'[..HEADER][5..9] == r[..HEADER][5..9] == r[5..9];
    assert r'[9..41] == r'[..HEADER][9..41] == r[..HEADER][9..41] == r[9..41];
  }

  // Overwriting one header field changes no slot and no other field.
  lemma HeaderEdit(r: seq<byte>, next: nat, start: nat, epoch: Digest)
    requires |r| == SIZE && next <= U32_MAX && start <= U32_MAX
    ensures var a := Splice(r, 1, Le32(next)); var b := Splice(r, 5, Le32(start)); var c := Splice(r, 9, epoch);
            && NextSeq(a) == next && StartSeq(a) == StartSeq(r) && Epoch(a) == Epoch(r) && a[0] == r[0]
            && NextSeq(b) == NextSeq(r) && StartSeq(b) == start && Epoch(b) == Epoch(r) && b[0] == r[0]
            && NextSeq(c) == NextSeq(r) && StartSeq(c) == StartSeq(r) && Epoch(c) == epoch && c[0] == r[0]
            && forall n: nat :: Slot(a, n) == Slot(b, n) == Slot(c, n) == Slot(r, n)
  {
    var a := Splice(r, 1, Le32(next));
    var b := Splice(r, 5, Le32(start));
    var c := Splice(r, 9, epoch);
    hide Splice;
    hide Le32;
    hide FromLe32;
    assert a[1..5] == Le32(next) && a[5..9] == r[5..9] && a[9..41] == r[9..41];
    assert b[1..5] == r[1..5] && b[5..9] == Le32(start) && b[9..41] == r[9..41];
    assert c[1..5] == r[1..5] && c[5..9] == r[5..9] && c[9..41] == epoch;
  }

  // The oldest entry goes into the epoch hash.
  lemma EvictCarries(sha: seq<byte> -> Digest, genesis: Digest, r: seq<byte>, log: Log)
    requires Carries(sha, genesis, r, log) && |log.history| - log.start == SLOTS
    ensures var r1 := Splice(r, 9, sha(Epoch(r) + Slot(r, log.start)));
            Carries(sha, genesis, Splice(r1, 5, Le32(log.start + 1)), log.(start := log.start + 1))
  {
    hide Splice, Slot, Epoch, NextSeq, StartSeq;
    var d := sha(Epoch(r) + Slot(r, log.start));
    HeaderEdit(r, 0, 0, d);
    HeaderEdit(Splice(r, 9, d), 0, log.start + 1, d);
    assert log.history[..log.start + 1][..log.start] == log.history[..log.start];
  }

  // A new entry goes into the next slot.
  lemma PlaceCarries(sha: seq<byte> -> Digest, genesis: Digest, r: seq<byte>, log: Log, e: Entry, report: Report)
    requires Carries(sha, genesis, r, log) && |log.history| - log.start < SLOTS
    requires |log.history| < U32_MAX && e[..4] == Le32(|log.history|)
    ensures var n := |log.history|;
            var r1 := Splice(r, Offset(n), e);
            Carries(sha, genesis, Splice(r1, 1, Le32(n + 1)), Place(log, e, report))
  {
    hide Splice, Slot, Epoch, Le32, NextSeq, StartSeq, Fold, Offset;
    var n, history := |log.history|, log.history + [e];
    var r1 := Splice(r, Offset(n), e);
    FillSlot(r, n, e);
    HeaderEdit(r1, n + 1, 0, Epoch(r1));
    PlacedWellFormed(log, e, report);
    assert history[..log.start] == log.history[..log.start];
  }

  lemma FillSlot(r: seq<byte>, n: nat, e: Entry)
    requires |r| == SIZE
    ensures var r1 := Splice(r, Offset(n), e);
            && NextSeq(r1) == NextSeq(r) && StartSeq(r1) == StartSeq(r) && Epoch(r1) == Epoch(r) && r1[0] == r[0]
            && Slot(r1, n) == e && forall m: nat | m < n < m + SLOTS :: Slot(r1, m) == Slot(r, m)
  {
    SlotEdit(r, n, 0, e);
    SameHeader(r, Splice(r, Offset(n), e));
    assert Splice(Slot(r, n), 0, e) == e;
  }

  lemma PlacedWellFormed(log: Log, e: Entry, report: Report)
    requires WellFormed(log) && |log.history| - log.start < SLOTS
    requires |log.history| < U32_MAX && e[..4] == Le32(|log.history|)
    ensures WellFormed(Place(log, e, report))
  {
  }

  // Bytes behind the sequence number of a kept entry change in place.
  lemma PatchCarries(sha: seq<byte> -> Digest, genesis: Digest, r: seq<byte>, log: Log, n: nat, k: nat, src: seq<byte>)
    requires Carries(sha, genesis, r, log) && log.start <= n < |log.history| && 4 <= k && k + |src| <= 20
    ensures Carries(sha, genesis, Splice(r, Offset(n) + k, src),
                    log.(history := log.history[n := Splice(log.history[n], k, src)]))
  {
    var r' := Splice(r, Offset(n) + k, src);
    var e' := Splice(log.history[n], k, src);
    SlotEdit(r, n, k, src);
    SameHeader(r, r');
    assert e'[..4] == log.history[n][..4];
    assert log.history[n := e'][..log.start] == log.history[..log.start];
  }

  // ---------------------------------------------------------------- the journal in place

  // "RSK-AUDIT-GENESIS-v1"
  const GENESIS_TAG: seq<byte> :=
    [0x52, 0x53, 0x4b, 0x2d, 0x41, 0x55, 0x44, 0x49, 0x54, 0x2d,
     0x47, 0x45, 0x4e, 0x45, 0x53, 0x49, 0x53, 0x2d, 0x76, 0x31]

  // What a stored file means; without one the journal is empty.
  ghost predicate Means(sha: seq<byte> -> Digest, genesis: Digest, file: Option<seq<byte>>, log: Log) {
    (file.None? ==> log == EMPTY) && (file.Some? ==> Carries(sha, genesis, file.value, log))
  }

  /** The static record buffer, the stored file and the boot_logged flag. The ghost log is what
      the stored file means, and `files` and `maybe` are what may be found after a power loss and
      what that means; every operation reloads the buffer from the file first. */
  class AuditJournal {
    const sha: seq<byte> -> Digest
    const serialHash: Digest
    const record: array<byte>
    var file: Option<seq<byte>>
    var enabled: bool
    var bootLogged: bool
    ghost var log: Log
    ghost var files: seq<Option<seq<byte>>>
    ghost var maybe: seq<Log>

    ghost function Now(): Journal
      reads this
    {
      Journal(log, maybe, bootLogged)
    }

    ghost function Genesis(): Digest {
      sha(GENESIS_TAG + serialHash)
    }

    ghost predicate Valid()
      reads this, record
    {
      && record.Length == SIZE && Means(sha, Genesis(), file, log) && |files| == |maybe|
      && forall i | 0 <= i < |files| :: Means(sha, Genesis(), files[i], maybe[i])
    }

    ghost predicate Loaded(l: Log)
      reads this, record
    {
      record.Length == SIZE && Carries(sha, Genesis(), record[..], l)
    }

    constructor (sha: seq<byte> -> Digest, serialHash: Digest)
      ensures Valid() && file == None && !enabled && !bootLogged && fresh(record)
      ensures this.sha == sha && this.serialHash == serialHash && Now() == NEW_JOURNAL
    {
      this.sha, this.serialHash := sha, serialHash;
      record := new byte[SIZE](_ => 0);
      file, enabled, bootLogged, log := None, false, false, EMPTY;
      files, maybe := [None], [EMPTY];
    }

    // Power-up: one of the possible files is found, and the boot report is due again.
    method PowerUp(found: Option<seq<byte>>, ghost i: nat)
      requires Valid() && i < |files| && found == files[i]
      modifies this`file, this`log, this`files, this`maybe, this`bootLogged
      ensures Valid() && file == found && Now() == Next(old(Now()), Reboot(i))
    {
      file, log := found, maybe[i];
      files, maybe := [file], [log];
      bootLogged := false;
    }

    // False exactly when a stored record fails the checks.
    method Load() returns (ok: bool)
      requires record.Length == SIZE
      modifies record
      ensures ok == (file.None? || LoadOk(file.value))
      ensures ok && file.Some? ==> record[..] == file.value
      ensures file.None? ==> Loaded(EMPTY)
    {
      if file.None? {
        LoadGenesis();
        return true;
      }
      if |file.value| != SIZE {
        return false;
      }
      Copy(record, 0, file.value);
      assert record[..] == file.value;
      ok := CheckRecord();
    }

    method LoadGenesis()
      requires record.Length == SIZE
      modifies record
      ensures Loaded(EMPTY)
    {
      Copy(record, 0, [1] + Zeros(SIZE - 1));
      Copy(record, 9, sha(GENESIS_TAG + serialHash));
      GenesisCarries(sha, Genesis(), record[..]);
    }

    method CheckRecord() returns (ok: bool)
      requires record.Length == SIZE
      ensures ok == LoadOk(record[..])
    {
      var next, start := NextSeq(record[..]), StartSeq(record[..]);
      if record[0] != 1 || next < start || next - start > SLOTS {
        return false;
      }
      hide NextSeq;
      hide StartSeq;
      hide Offset;
      hide FromLe32;
      var n := start;
      while n < next
        invariant start <= n <= next
        invariant forall m | start <= m < n :: FromLe32(Slot(record[..], m)[..4]) == m
      {
        if FromLe32(Slot(record[..], n)[..4]) != n {
          return false;
        }
        n := n + 1;
      }
      ok := true;
    }

    // A file_put_data and flash_commit_sync: what was written is read from then on, but it is certain to
    // stay only if the commit succeeds.
    method PutRecord(flush: Flush, ghost l: Log) returns (ok: bool)
      requires Valid() && Loaded(l)
      modifies this`file, this`log, this`files, this`maybe
      ensures Valid() && ok == flush.Synced? && Now() == Put(old(Now()), l, flush)
      ensures file == if flush.NotWritten? then old(file) else Some(record[..])
    {
      hide Carries;
      if flush == NotWritten {
        return false;
      }
      file, log := Some(record[..]), l;
      if flush == NotSynced {
        files, maybe := files + [file], maybe + [l];
        return false;
      }
      files, maybe := [file], [l];
      ok := true;
    }

    method AppendOne(ghost l: Log, r: Report, c: Clock) returns (ok: bool)
      requires Loaded(l)
      modifies record
      ensures ok == (|l.history| < U32_MAX)
      ensures ok ==> Loaded(Add(l, RawEntry(|l.history|, c, r), r))
    {
      hide Carries, RawEntry, NextSeq, StartSeq, WellFormed, Place;
      CarriedHeader(sha, Genesis(), record[..], l);
      var next, start := NextSeq(record[..]), StartSeq(record[..]);
      if next == U32_MAX {
        return false;
      }
      ok := true;
      if next - start == SLOTS {
        EvictOldest(l);
        PlaceEntry(l.(start := l.start + 1), r, c);
      } else {
        PlaceEntry(l, r, c);
      }
    }

    method EvictOldest(ghost l: Log)
      requires Loaded(l) && |l.history| - l.start == SLOTS
      modifies record
      ensures Loaded(l.(start := l.start + 1))
    {
      hide Carries, NextSeq, StartSeq, Epoch, Slot, Fold, Splice, WellFormed;
      CarriedHeader(sha, Genesis(), record[..], l);
      EvictCarries(sha, Genesis(), record[..], l);
      var start := StartSeq(record[..]);
      Copy(record, 9, sha(Epoch(record[..]) + Slot(record[..], start)));
      Copy(record, 5, Le32(start + 1));
    }

    method PlaceEntry(ghost l: Log, r: Report, c: Clock)
      requires Loaded(l) && |l.history| < U32_MAX && |l.history| - l.start < SLOTS
      modifies record
      ensures Loaded(Place(l, RawEntry(|l.history|, c, r), r))
    {
      hide Carries, RawEntry, NextSeq, StartSeq, Epoch, Fold, Splice, WellFormed, Place, Le32;
      CarriedHeader(sha, Genesis(), record[..], l);
      var next := NextSeq(record[..]);
      var e := RawEntry(next, c, r);
      RawEntryNumber(next, c, r);
      PlaceCarries(sha, Genesis(), record[..], l, e, r);
      Copy(record, Offset(next), e);
      Copy(record, 1, Le32(next + 1));
    }

    lemma LoadedWindow(l: Log)
      requires Loaded(l)
      ensures record.Length == SIZE && NextSeq(record[..]) == |l.history|
              && StartSeq(record[..]) == l.start <= |l.history|
      ensures |l.merged| == |l.history| <= U32_MAX && WellFormed(l)
      ensures Epoch(record[..]) == Fold(sha, Genesis(), l.history[..l.start])
      ensures forall m | l.start <= m < |l.history| :: Slot(record[..], m) == l.history[m]
    {
      hide Carries;
      CarriedHeader(sha, Genesis(), record[..], l);
      CarriedSlots(sha, Genesis(), record[..], l);
    }

    // The loop of append that looks for an entry to merge a repeated report into.
    method FindMerge(ghost l: Log, ev: byte) returns (k: Option<nat>)
      requires Loaded(l)
      ensures k == MergeTarget(l, ev)
    {
      hide Loaded, Slot, NextSeq, StartSeq, Kind, Latest, WellFormed;
      LoadedWindow(l);
      var next, start := NextSeq(record[..]), StartSeq(record[..]);
      k := None;
      var n := next;
      while n > start
        invariant start <= n <= next && k.None?
        invariant ev == CONFIG_WRITE ==> n + 1 >= next
        invariant forall m | n <= m < next :: Kind(l.history[m]) != ev
      {
        n := n - 1;
        if ev == CONFIG_WRITE && n != next - 1 {
          break;
        }
        if Kind(Slot(record[..], n)) == ev {
          k := Some(n);
          break;
        }
      }
      LatestIsTarget(l, ev, k);
    }

    method MergeInto(ghost l: Log, n: nat, r: Report)
      requires Loaded(l) && l.start <= n < |l.history|
      modifies record
      ensures Loaded(Merge(l, n, r))
    {
      hide Carries, Slot, RepeatCount, SetCount, SetMask, Kind, AddTarget, WellFormed, NextSeq, StartSeq;
      LoadedWindow(l);
      var e := Slot(record[..], n);
      var count := RepeatCount(e);
      if count != U16_MAX {
        count := count + 1;
      }
      ghost var l1 := l.(history := l.history[n := SetCount(e, count)]);
      WriteCount(l, n, count);
      if Kind(e) == CONFIG_WRITE {
        LoadedWindow(l1);
        var mask := AddTarget(Slot(record[..], n)[12], r.aux);
        WriteMask(l1, n, mask);
        assert l1.history[n := Bump(e, r.aux)] == l.history[n := Bump(e, r.aux)];
        l1 := l1.(history := l1.history[n := SetMask(l1.history[n], mask)]);
      }
      SameWindow(sha, Genesis(), record[..], l1, Merge(l, n, r));
    }

    method WriteCount(ghost l: Log, n: nat, count: nat)
      requires Loaded(l) && l.start <= n < |l.history| && count <= U16_MAX
      modifies record
      ensures Loaded(l.(history := l.history[n := SetCount(l.history[n], count)]))
    {
      var e := Slot(record[..], n);
      var offset, src := CountOffset(Kind(e)), [count % 256, count / 256];
      assert Splice(e, offset, src) == SetCount(e, count);
      PatchCarries(sha, Genesis(), record[..], l, n, offset, src);
      hide Carries;
      hide SetCount;
      Copy(record, Offset(n) + offset, src);
    }

    method WriteMask(ghost l: Log, n: nat, mask: byte)
      requires Loaded(l) && l.start <= n < |l.history|
      modifies record
      ensures Loaded(l.(history := l.history[n := SetMask(l.history[n], mask)]))
    {
      assert Splice(l.history[n], 12, [mask]) == SetMask(l.history[n], mask);
      PatchCarries(sha, Genesis(), record[..], l, n, 12, [mask]);
      hide Carries;
      Copy(record, Offset(n) + 12, [mask]);
    }

    // append_one, followed by the mask for a configuration write.
    method AddReport(ghost l: Log, r: Report, c: Clock) returns (ok: bool)
      requires Loaded(l)
      modifies record
      ensures ok == (|l.history| < U32_MAX)
      ensures ok ==> Loaded(Add(l, NewEntry(|l.history|, c, r), r))
    {
      hide Carries, RawEntry, SetMask, NextSeq, StartSeq, WellFormed, AddTarget;
      LoadedWindow(l);
      ok := AppendOne(l, r, c);
      if ok && r.ev == CONFIG_WRITE {
        ghost var l1 := Add(l, RawEntry(|l.history|, c, r), r);
        LoadedWindow(l1);
        var n := NextSeq(record[..]) - 1;
        WriteMask(l1, n, AddTarget(0, r.aux));
        assert l1.history[n := NewEntry(n, c, r)] == l.history + [NewEntry(n, c, r)];
      }
    }

    // The body of append between loading the record and writing it back.
    method BuildRecord(ghost l: Log, r: Report, bootClock: Clock, clock: Clock) returns (ok: bool)
      requires Loaded(l)
      modifies record
      ensures WellFormed(l) && ok == Append(l, bootLogged, r, bootClock, clock).Some?
      ensures ok ==> Loaded(Append(l, bootLogged, r, bootClock, clock).value)
    {
      hide Carries, NewEntry, Merge, Add, WellFormed;
      LoadedWindow(l);
      if bootLogged {
        ok := BuildOne(l, r, clock);
      } else {
        ok := BuildBoot(l, r, bootClock, clock);
      }
    }

    method BuildBoot(ghost l: Log, r: Report, bootClock: Clock, clock: Clock) returns (ok: bool)
      requires Loaded(l) && WellFormed(l)
      modifies record
      ensures ok == Append(l, false, r, bootClock, clock).Some?
      ensures ok ==> Loaded(Append(l, false, r, bootClock, clock).value)
    {
      hide Carries, RawEntry, WellFormed;
      ghost var n := |l.history|;
      LoadedWindow(l);
      ok := AppendOne(l, BOOT_REPORT, bootClock);
      if ok {
        ghost var l1 := Add(l, NewEntry(n, bootClock, BOOT_REPORT), BOOT_REPORT);
        assert Loaded(l1) && |l1.history| == n + 1;
        ok := AddReport(l1, r, clock);
      }
    }

    method BuildOne(ghost l: Log, r: Report, clock: Clock) returns (ok: bool)
      requires Loaded(l) && WellFormed(l)
      modifies record
      ensures ok == Append(l, true, r, clock, clock).Some?
      ensures ok ==> Loaded(Append(l, true, r, clock, clock).value)
    {
      hide Carries, NewEntry, Merge, Add, WellFormed;
      LoadedWindow(l);
      if r.coalesce {
        var k := FindMerge(l, r.ev);
        if k.Some? {
          MergeInto(l, k.value, r);
          return true;
        }
      }
      ok := AddReport(l, r, clock);
    }

    method Save(flush: Flush, ghost l: Log)
      requires Valid() && Loaded(l)
      modifies this`file, this`log, this`files, this`maybe, this`bootLogged
      ensures Valid() && Now() == Put(old(Now()), l, flush).(bootLogged := old(bootLogged) || flush.Synced?)
    {
      var done := PutRecord(flush, l);
      if done {
        bootLogged := true;
      }
    }

    // Every operation starts from the file, which always passes the checks.
    method Reload() returns (ok: bool)
      requires Valid()
      modifies record
      ensures Valid() && ok && Loaded(log) && WellFormed(log)
    {
      StoredLoads();
      ok := Load();
    }

    // audit_append and audit_append_run
    method AppendReport(r: Report, bootClock: Clock, clock: Clock, flush: Flush)
      requires Valid()
      modifies this, record
      ensures Valid() && enabled == old(enabled)
      ensures !enabled ==> Now() == old(Now()) && file == old(file)
      ensures enabled ==> Now() == Next(old(Now()), Reported(r, bootClock, clock, flush))
    {
      hide Append, Carries;
      if enabled {
        var ok := Reload();
        if ok {
          ok := BuildRecord(log, r, bootClock, clock);
          if ok {
            Save(flush, Append(log, bootLogged, r, bootClock, clock).value);
          }
        }
      }
    }

    // audit_scrub
    method ScrubDetails(flush: Flush) returns (ok: bool)
      requires Valid()
      modifies this, record
      ensures Valid() && enabled == old(enabled)
      ensures ok == (old(file).None? || flush.Synced?)
      ensures Now() == if old(file).None? then old(Now()) else Next(old(Now()), Scrubbed(flush))
    {
      if file.None? {
        return true;
      }
      hide Carries;
      ok := Reload();
      if ok {
        ghost var l := log;
        FoldWindow(l);
        ok := PutRecord(flush, Scrub(l));
      }
    }

    method FoldWindow(ghost l: Log)
      requires Loaded(l)
      modifies record
      ensures Loaded(Scrub(l))
    {
      hide Carries, Splice, Slot, Epoch, NextSeq, StartSeq, Fold, WellFormed;
      ghost var r0 := record[..];
      FoldEpoch(l);
      var next := NextSeq(record[..]);
      ghost var r := record[..];
      Copy(record, 5, Le32(next));
      ghost var r1 := record[..];
      Copy(record, HEADER, Zeros(SIZE - HEADER));
      assert record[..HEADER] == r1[..HEADER];
      ScrubCarries(sha, Genesis(), l, r0, r, record[..]);
    }

    // The loop that folds the whole window into the epoch.
    method FoldEpoch(ghost l: Log)
      requires Loaded(l)
      modifies record
      ensures HeaderBut(old(record[..]), record[..]) && NextSeq(record[..]) == |l.history| <= U32_MAX
      ensures Epoch(record[..]) == Fold(sha, Genesis(), l.history)
    {
      hide Fold, Slot, NextSeq, StartSeq, Epoch;
      var next, n := NextSeq(record[..]), StartSeq(record[..]);
      ghost var r0 := record[..];
      while n < next
        invariant l.start <= n <= next == |l.history|
        invariant HeaderBut(r0, record[..]) && Epoch(record[..]) == Fold(sha, Genesis(), l.history[..n])
      {
        assert Slot(record[..], n) == l.history[n];
        FoldNext(sha, Genesis(), l.history, n);
        FoldSlot(n);
        n := n + 1;
      }
      assert l.history[..next] == l.history;
    }

    method FoldSlot(n: nat)
      requires record.Length == SIZE
      modifies record
      ensures HeaderBut(old(record[..]), record[..])
      ensures Epoch(record[..]) == sha(old(Epoch(record[..]) + Slot(record[..], n)))
    {
      hide Splice, Slot, NextSeq, StartSeq, Epoch;
      HeaderEdit(record[..], 0, 0, sha(Epoch(record[..]) + Slot(record[..], n)));
      Copy(record, 9, sha(Epoch(record[..]) + Slot(record[..], n)));
    }

    // head: the hash that audit_checkpoint signs.
    method Head(ghost l: Log) returns (out: Digest)
      requires Loaded(l)
      ensures out == Fold(sha, Genesis(), l.history)
    {
      hide Loaded, Carries, Slot, NextSeq, StartSeq, Epoch, Fold, WellFormed;
      LoadedWindow(l);
      var next, n := NextSeq(record[..]), StartSeq(record[..]);
      out := Epoch(record[..]);
      while n < next
        invariant l.start <= n <= next == |l.history|
        invariant out == Fold(sha, Genesis(), l.history[..n])
      {
        FoldNext(sha, Genesis(), l.history, n);
        out := sha(out + Slot(record[..], n));
        n := n + 1;
      }
      assert l.history[..next] == l.history;
    }

    // The window part of audit_export.
    method ExportWindow(ghost l: Log) returns (start: nat, next: nat, epoch: Digest, entries: seq<Entry>)
      requires Loaded(l)
      ensures start == l.start && next == |l.history|
      ensures epoch == Fold(sha, Genesis(), l.history[..start]) && entries == l.history[start..]
    {
      hide Loaded, Carries, Slot, NextSeq, StartSeq, Epoch, Fold, WellFormed;
      LoadedWindow(l);
      start, next, epoch := StartSeq(record[..]), NextSeq(record[..]), Epoch(record[..]);
      entries := [];
      var n := start;
      while n < next
        invariant l.start == start <= n <= next == |l.history|
        invariant entries == l.history[start..n]
      {
        entries := entries + [Slot(record[..], n)];
        n := n + 1;
      }
    }

    lemma StoredLoads()
      requires Valid()
      ensures file.Some? ==> LoadOk(file.value) && Carries(sha, Genesis(), file.value, log)
    {
    }
  }

  // What the record carries of a log is its entries.
  lemma SameWindow(sha: seq<byte> -> Digest, genesis: Digest, r: seq<byte>, log: Log, log': Log)
    requires Carries(sha, genesis, r, log) && log'.history == log.history && log'.start == log.start
    requires |log'.merged| == |log.merged|
    ensures Carries(sha, genesis, r, log')
  {
  }

  // A kept entry of the kind that no later one shares is the merge target.
  lemma LatestIsTarget(l: Log, ev: byte, k: Option<nat>)
    requires l.start <= |l.history|
    requires k.Some? ==> MergeFrom(l, ev) <= k.value < |l.history| && Kind(l.history[k.value]) == ev
    requires forall n | (if k.Some? then k.value + 1 else MergeFrom(l, ev)) <= n < |l.history| ::
               Kind(l.history[n]) != ev
    ensures k == MergeTarget(l, ev)
  {
  }

  ghost predicate HeaderBut(r0: seq<byte>, r: seq<byte>) {
    && |r| == |r0| == SIZE && r[0] == r0[0] && NextSeq(r) == NextSeq(r0) && StartSeq(r) == StartSeq(r0)
    && forall n: nat :: Slot(r, n) == Slot(r0, n)
  }

  lemma FoldNext(sha: seq<byte> -> Digest, genesis: Digest, history: seq<Entry>, n: nat)
    requires n < |history|
    ensures Fold(sha, genesis, history[..n + 1]) == sha(Fold(sha, genesis, history[..n]) + history[n])
  {
    assert history[..n + 1][..n] == history[..n];
  }

  // An empty window behind the epoch that has folded everything.
  lemma ScrubCarries(sha: seq<byte> -> Digest, genesis: Digest, log: Log, r0: seq<byte>, r: seq<byte>, r2: seq<byte>)
    requires Carries(sha, genesis, r0, log) && HeaderBut(r0, r) && Epoch(r) == Fold(sha, genesis, log.history)
    requires |r2| == SIZE && |log.history| <= U32_MAX && r2[..HEADER] == Splice(r, 5, Le32(|log.history|))[..HEADER]
    ensures Carries(sha, genesis, r2, Scrub(log))
  {
    HeaderEdit(r, 0, |log.history|, Epoch(r));
    SameHeader(Splice(r, 5, Le32(|log.history|)), r2);
    ScrubbedWellFormed(log);
    assert log.history[..|log.history|] == log.history;
  }

  lemma ScrubbedWellFormed(log: Log)
    requires WellFormed(log)
    ensures WellFormed(Scrub(log))
  {
  }

  lemma GenesisCarries(sha: seq<byte> -> Digest, genesis: Digest, r: seq<byte>)
    requires |r| == SIZE && r[0] == 1 && r[9..41] == genesis && forall i | 1 <= i < 9 :: r[i] == 0
    ensures Carries(sha, genesis, r, EMPTY)
  {
  }

  lemma RawEntryNumber(n: nat, c: Clock, r: Report)
    requires n <= U32_MAX
    ensures RawEntry(n, c, r)[..4] == Le32(n)
  {
  }
}
