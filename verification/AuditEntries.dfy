/** What a report does to the journal (src/fido/audit.c): which reports share an entry, what an entry says,
    which entries are kept, and what the hash chain binds. */
module AuditEntries {
  import opened Bytes
  import opened AuditLog
  import opened AuditRecord

  // ---------------------------------------------------------------- what an entry says

  // The wall clock is used once it has been set, from 2020 on and while it fits.
  predicate HasWallTime(c: Clock) {
    c.rtcSet && 1577836800 <= c.rtc <= U32_MAX
  }

  // Number, time and its origin, kind, auxiliary byte, detail cut or padded to eight bytes, and no
  // repetition; a configuration write says its target in the mask byte instead of a detail byte.
  lemma EntryLayout(n: nat, c: Clock, r: Report)
    requires n <= U32_MAX && r.ev < 128
    ensures var e := NewEntry(n, c, r);
            && FromLe32(e[..4]) == n
            && FromLe32(e[4..8]) == (if HasWallTime(c) then c.rtc else c.millis)
            && (e[8] >= 128 <==> HasWallTime(c)) && Kind(e) == r.ev && e[9] == r.aux
            && (forall i | 0 <= i < 8 && !(r.ev == CONFIG_WRITE && i == 2) ::
                  e[10 + i] == if i < |r.detail| then r.detail[i] else 0)
            && e[18] == 0 && e[19] == 0
            && (r.ev == CONFIG_WRITE ==> forall j: nat :: HasBit(e[12], j) <==> j == if r.aux < 7 then r.aux else 7)
  {
    hide Le32, FromLe32;
    var raw := RawEntry(n, c, r);
    assert raw[..4] == Le32(n) && raw[4..8] == Le32(if HasWallTime(c) then c.rtc else c.millis);
    assert NewEntry(n, c, r)[..4] == raw[..4] && NewEntry(n, c, r)[4..8] == raw[4..8];
    forall j: nat
      ensures HasBit(AddTarget(0, r.aux), j) <==> j == if r.aux < 7 then r.aux else 7
    {
      SetBitIsOr(0, TargetBit(r.aux), j);
      HasNoBit(j);
    }
  }

  // ---------------------------------------------------------------- which reports share an entry

  // A kept entry that a repeated report may join: any of its kind, and for a configuration write the last.
  predicate Joins(log: Log, n: nat, ev: byte)
    requires log.start <= |log.history|
  {
    log.start <= n < |log.history| && Kind(log.history[n]) == ev && (ev == CONFIG_WRITE ==> n == |log.history| - 1)
  }

  predicate JoinsLast(log: Log, k: nat, ev: byte)
    requires log.start <= |log.history|
  {
    Joins(log, k, ev) && forall n | k < n < |log.history| :: !Joins(log, n, ev)
  }

  lemma TargetIff(log: Log, ev: byte)
    requires log.start <= |log.history|
    ensures var k := MergeTarget(log, ev);
            && (k.Some? <==> exists n: nat :: Joins(log, n, ev))
            && (k.Some? ==> JoinsLast(log, k.value, ev))
  {
    var k := MergeTarget(log, ev);
    if k.Some? {
      assert Joins(log, k.value, ev);
    }
  }

  // A report is refused only when the 32-bit sequence number is used up.
  lemma RefusedIff(log: Log, bootLogged: bool, r: Report, bootClock: Clock, clock: Clock)
    requires WellFormed(log)
    ensures Append(log, bootLogged, r, bootClock, clock).None? <==>
              if bootLogged
              then |log.history| == U32_MAX && !(r.coalesce && exists n: nat :: Joins(log, n, r.ev))
              else |log.history| >= U32_MAX - 1
  {
    hide NewEntry, Bump, MergeTarget, Joins;
    TargetIff(log, r.ev);
  }

  // The first report of a boot is entered behind a boot entry, whether or not it could have joined one.
  lemma FirstReportOfABoot(log: Log, r: Report, bootClock: Clock, clock: Clock)
    requires WellFormed(log) && |log.history| < U32_MAX - 1
    ensures var n := |log.history|;
            var log' := Append(log, false, r, bootClock, clock);
            && log'.Some?
            && log'.value.history == log.history + [NewEntry(n, bootClock, BOOT_REPORT), NewEntry(n + 1, clock, r)]
            && log'.value.merged == log.merged + [[BOOT_REPORT], [r]]
  {
    hide NewEntry;
  }

  // Later a report that may not be merged always adds one entry of its own and alters none.
  lemma SeparateReportAdds(log: Log, r: Report, bootClock: Clock, clock: Clock)
    requires WellFormed(log) && |log.history| < U32_MAX && !r.coalesce
    ensures var log' := Append(log, true, r, bootClock, clock);
            && log'.Some?
            && log'.value.history == log.history + [NewEntry(|log.history|, clock, r)]
            && log'.value.merged == log.merged + [[r]]
  {
    hide NewEntry;
  }

  // One that may be merged adds no entry if and only if a kept entry can take it, and then the latest one
  // takes it; otherwise it is entered like any other.
  lemma RepeatedReportJoinsIff(log: Log, r: Report, bootClock: Clock, clock: Clock)
    requires WellFormed(log) && r.coalesce && Append(log, true, r, bootClock, clock).Some?
    ensures var log' := Append(log, true, r, bootClock, clock).value;
            && (|log'.history| == |log.history| <==> exists n: nat :: Joins(log, n, r.ev))
            && (forall k: nat | JoinsLast(log, k, r.ev) ::
                  k < |log.merged|
                  && log'.merged == log.merged[k := log.merged[k] + [r]] && OnlyCounts(log.history, log'.history, k))
            && (!(exists n: nat :: Joins(log, n, r.ev)) ==>
                  && log'.history == log.history + [NewEntry(|log.history|, clock, r)]
                  && log'.merged == log.merged + [[r]])
  {
    hide NewEntry, Bump, MergeTarget, MergeFrom, Joins, JoinsLast, Kind, Le32, Latest, OnlyCounts;
    TargetIff(log, r.ev);
    var k := MergeTarget(log, r.ev);
    if k.Some? {
      BumpOnlyCounts(log.history, k.value, r.aux);
    }
    forall i: nat | JoinsLast(log, i, r.ev)
      ensures i < |log.history| && k == Some(i)
    {
      OneLast(log, i, r.ev);
    }
  }

  lemma OneLast(log: Log, i: nat, ev: byte)
    requires log.start <= |log.history| && JoinsLast(log, i, ev)
    ensures i < |log.history| && MergeTarget(log, ev) == Some(i)
  {
    TargetIff(log, ev);
  }

  // Entry k counts one repetition more, up to 65535, in bytes 10 and 11 or 18 and 19; its number, time, kind and
  // auxiliary byte stay, its detail too unless it is a configuration write, and no other entry changes.
  predicate OnlyCounts(before: seq<Entry>, after: seq<Entry>, k: nat) {
    && k < |before| == |after| && (forall n | 0 <= n < |before| && n != k :: after[n] == before[n])
    && after[k][..10] == before[k][..10]
    && (Kind(before[k]) != CONFIG_WRITE ==> after[k][10..18] == before[k][10..18])
    && var at := if Kind(before[k]) == 21 then 10 else 18;
    && var count := before[k][at] as int + 256 * before[k][at + 1] as int;
    && after[k][at] as int + 256 * after[k][at + 1] as int == if count < 65535 then count + 1 else 65535
  }

  lemma BumpOnlyCounts(history: seq<Entry>, k: nat, aux: byte)
    requires k < |history|
    ensures OnlyCounts(history, history[k := Bump(history[k], aux)], k)
  {
    hide AddTarget;
  }

  // ---------------------------------------------------------------- which entries are kept

  // An entry leaves the window only when the ring is full.
  lemma WindowSlides(log: Log, bootLogged: bool, r: Report, bootClock: Clock, clock: Clock)
    requires WellFormed(log) && Append(log, bootLogged, r, bootClock, clock).Some?
    ensures var log' := Append(log, bootLogged, r, bootClock, clock).value;
            log'.start == if |log'.history| - log.start <= SLOTS then log.start else |log'.history| - SLOTS
  {
    hide NewEntry, Bump, Latest, Kind, Le32;
  }

  predicate KeepsLatest(log: Log) {
    log.start == if |log.history| <= SLOTS then 0 else |log.history| - SLOTS
  }

  // Without a scrub every content a run may leave in flash keeps the latest 128 entries, or all.
  lemma {:induction false} LatestAreKept(j: Journal, events: seq<Event>)
    requires AllSound(j) && forall i | 0 <= i < |events| :: PlainEvent(events[i]) && !events[i].Scrubbed?
    requires forall x <- Contents(j) :: KeepsLatest(x)
    ensures forall x <- Contents(Run(j, events)) :: KeepsLatest(x)
    decreases |events|
  {
    hide Sound, WellFormed, Append, Next, AllSound, KeepsLatest;
    if events != [] {
      NowSound(j);
      NextSound(j, events[0]);
      forall x <- Contents(Next(j, events[0]))
        ensures KeepsLatest(x)
      {
        NextContents(j, events[0]);
        MadeKeepsLatest(j, events[0]);
      }
      LatestAreKept(Next(j, events[0]), events[1..]);
    }
  }

  lemma MadeKeepsLatest(j: Journal, e: Event)
    requires WellFormed(j.log) && KeepsLatest(j.log) && !e.Scrubbed?
    ensures Made(j, e).Some? ==> KeepsLatest(Made(j, e).value)
  {
    hide Append, WellFormed;
    if Made(j, e).Some? {
      WindowSlides(j.log, j.bootLogged, e.r, e.bootClock, e.clock);
      GrowsBy(j.log, j.bootLogged, e.r, e.bootClock, e.clock);
    }
  }

  lemma GrowsBy(log: Log, bootLogged: bool, r: Report, bootClock: Clock, clock: Clock)
    requires WellFormed(log) && Append(log, bootLogged, r, bootClock, clock).Some?
    ensures log.start <= |log.history| <= |Append(log, bootLogged, r, bootClock, clock).value.history|
  {
    hide NewEntry, Bump, Latest, Kind, Le32;
  }

  // After a scrub nothing of the entries is left to export, and the next repeated report joins none.
  lemma ScrubForgets(log: Log, ev: byte)
    requires WellFormed(log)
    ensures var s := Scrub(log);
            && s.history == log.history && s.history[s.start..] == [] && s.taken == log.taken
            && forall n: nat :: !Joins(s, n, ev)
  {
  }

  // ---------------------------------------------------------------- the boot entry

  function Reports(events: seq<Event>): seq<Report> {
    if events == [] then []
    else (if events[0].Reported? then [events[0].r] else []) + Reports(events[1..])
  }

  // Since power-up the journal has taken in one boot report, in front of the first report, and then exactly
  // the reports that were made, in order; as long as commits work and there are sequence numbers.
  lemma {:induction false} BootComesFirst(j: Journal, events: seq<Event>)
    requires AllSound(j) && forall i | 0 <= i < |events| :: PlainEvent(events[i])
    requires forall i | 0 <= i < |events| :: !events[i].Reboot? && (events[i].Reported? ==> events[i].flush.Synced?)
    requires |j.log.history| + |events| + (if j.bootLogged then 0 else 1) < U32_MAX
    ensures Run(j, events).log.taken ==
            j.log.taken + (if j.bootLogged || Reports(events) == [] then [] else [BOOT_REPORT]) + Reports(events)
    decreases |events|
  {
    hide AllSound, Sound, WellFormed, Append;
    if events != [] {
      NowSound(j);
      NextSound(j, events[0]);
      NextTaken(j, events[0]);
      OneStep(j, events[0]);
      BootComesFirst(Next(j, events[0]), events[1..]);
    }
  }

  lemma OneStep(j: Journal, e: Event)
    requires WellFormed(j.log) && !e.Reboot? && (e.Reported? ==> e.flush.Synced?)
    requires |j.log.history| + 1 + (if j.bootLogged then 0 else 1) < U32_MAX
    ensures var j' := Next(j, e);
            && |j'.log.history| + (if j'.bootLogged then 0 else 1) <=
               |j.log.history| + 1 + (if j.bootLogged then 0 else 1)
            && j'.bootLogged == (j.bootLogged || e.Reported?)
            && Persists(j, e) == if e.Reported? then Adds(j.bootLogged, e.r) else []
  {
    hide NewEntry, Bump, Latest, Kind, Le32;
  }

  // ---------------------------------------------------------------- what load refuses

  // A stored record is refused as soon as the number in a kept slot or the version is another one.
  lemma TamperedIsRefused(sha: seq<byte> -> Digest, genesis: Digest, r: seq<byte>, log: Log, n: nat, m: nat)
    requires Carries(sha, genesis, r, log) && log.start <= n < |log.history| && m <= U32_MAX
    ensures LoadOk(Splice(r, Offset(n), Le32(m))) <==> m == n
  {
    hide Le32, FromLe32, Splice, Carries;
    CarriedHeader(sha, genesis, r, log);
    CarriedLoads(sha, genesis, r, log);
    var r' := Splice(r, Offset(n) + 0, Le32(m));
    SlotEdit(r, n, 0, Le32(m));
    SameHeader(r, r');
    SplicedNumber(Slot(r, n), m);
    assert Slot(r', n)[..4] == Le32(m);
  }

  lemma OtherVersionIsRefused(sha: seq<byte> -> Digest, genesis: Digest, r: seq<byte>, log: Log, version: byte)
    requires Carries(sha, genesis, r, log)
    ensures LoadOk(r[0 := version]) <==> version == 1
  {
    hide Le32, FromLe32, Fold;
    CarriedLoads(sha, genesis, r, log);
    var r' := r[0 := version];
    assert r'[1..5] == r[1..5] && r'[5..9] == r[5..9];
    forall n: nat
      ensures Slot(r', n) == Slot(r, n)
    {
    }
  }

  lemma SplicedNumber(e: Entry, m: nat)
    requires m <= U32_MAX
    ensures Splice(e, 0, Le32(m))[..4] == Le32(m)
  {
  }

  // ---------------------------------------------------------------- what the hash chain binds

  // Two histories of one length with one head are the same, or two inputs with one hash have been found.
  lemma {:induction false} HeadBindsHistory(sha: seq<byte> -> Digest, genesis: Digest, a: seq<Entry>, b: seq<Entry>)
    requires |a| == |b| && Fold(sha, genesis, a) == Fold(sha, genesis, b)
    ensures a == b || exists x: seq<byte>, y: seq<byte> :: x != y && sha(x) == sha(y)
  {
    if a != [] {
      var n := |a| - 1;
      var x, y := Fold(sha, genesis, a[..n]) + a[n], Fold(sha, genesis, b[..n]) + b[n];
      assert sha(x) == sha(y);
      if x == y {
        assert x[..32] == y[..32] && x[32..] == a[n] && y[32..] == b[n];
        HeadBindsHistory(sha, genesis, a[..n], b[..n]);
        assert a == a[..n] + [a[n]] && b == b[..n] + [b[n]];
      }
    }
  }

  // The chain starts at the genesis digest and takes the entries in order.
  lemma HeadOfTwo(sha: seq<byte> -> Digest, genesis: Digest, e: Entry, f: Entry)
    ensures Fold(sha, genesis, [e, f]) == sha(sha(genesis + e) + f)
  {
    assert [e, f][..1] == [e] && [e][..0] == [];
    assert Fold(sha, genesis, [e]) == sha(genesis + e);
  }
}
