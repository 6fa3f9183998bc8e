/** What the security-event journal means (src/fido/audit.c): the whole logical history of
    entries, of which only a window is kept in full, and the reports each entry stands for. */
module AuditLog {
  import opened Bytes

  const SLOTS: nat := 128
  const BOOT: byte := 1
  const CONFIG_WRITE: byte := 21

  type Entry = e: seq<byte> | |e| == 20 witness Zeros(20)

  type Digest = d: seq<byte> | |d| == 32 witness Zeros(32)

  type u32 = x: int | 0 <= x < 0x1_0000_0000

  // The two clocks an entry can be stamped with: has_set_rtc(), get_rtc_time(), board_millis().
  datatype Clock = Clock(rtcSet: bool, rtc: int, millis: u32)

  datatype Report = Report(ev: byte, aux: byte, detail: seq<byte>, coalesce: bool)

  const BOOT_REPORT: Report := Report(BOOT, 0, [], false)

  // history[n] is entry number n as last written; entries before `start` survive only in the
  // epoch hash. merged[n] lists the reports that entry n stands for, `taken` all reports in the
  // order in which they were written.
  datatype Log = Log(history: seq<Entry>, start: nat, merged: seq<seq<Report>>, taken: seq<Report>)

  const EMPTY: Log := Log([], 0, [], [])

  // ---------------------------------------------------------------- entries

  // Bits of a byte, lowest first.
  predicate HasBit(m: nat, k: nat) {
    if k == 0 then m % 2 == 1 else HasBit(m / 2, k - 1)
  }

  function SetBit(m: nat, k: nat): nat {
    if k == 0 then m / 2 * 2 + 1 else 2 * SetBit(m / 2, k - 1) + m % 2
  }

  // Setting a bit is OR with it: that bit is set, every other bit stays.
  lemma {:induction false} SetBitIsOr(m: nat, k: nat, j: nat)
    ensures HasBit(SetBit(m, k), j) <==> j == k || HasBit(m, j)
  {
    if k > 0 && j > 0 {
      SetBitIsOr(m / 2, k - 1, j - 1);
    }
  }

  lemma {:induction false} SetBitFits(m: nat, k: nat, limit: nat)
    requires k < limit && m < Pow2(limit)
    ensures SetBit(m, k) < Pow2(limit)
  {
    if k > 0 {
      assert Pow2(limit) == 2 * Pow2(limit - 1);
      assert m / 2 < Pow2(limit - 1);
      SetBitFits(m / 2, k - 1, limit - 1);
    }
  }

  function Pow2(n: nat): nat {
    if n == 0 then 1 else 2 * Pow2(n - 1)
  }

  // The bit of the mask byte that stands for a configuration target.
  function TargetBit(aux: byte): nat {
    if aux < 7 then aux else 7
  }

  function AddTarget(mask: byte, aux: byte): byte {
    SetBitFits(mask, TargetBit(aux), 8);
    assert Pow2(8) == 256 by { assert Pow2(4) == 16; }
    SetBit(mask, TargetBit(aux))
  }

  function Detail(detail: seq<byte>): (d: seq<byte>)
    ensures |d| == 8
  {
    if |detail| >= 8 then detail[..8] else detail + Zeros(8 - |detail|)
  }

  // The bytes append_one lays out for entry number n.
  function RawEntry(n: nat, c: Clock, r: Report): Entry
    requires n <= U32_MAX
  {
    var wall := c.rtcSet && 1577836800 <= c.rtc <= U32_MAX;
    Le32(n) + Le32(if wall then c.rtc else c.millis)
    + [if wall && r.ev < 128 then r.ev + 128 else r.ev, r.aux] + Detail(r.detail) + [0, 0]
  }

  // A configuration entry starts with the bit of its own target.
  function NewEntry(n: nat, c: Clock, r: Report): Entry
    requires n <= U32_MAX
  {
    var e := RawEntry(n, c, r);
    if r.ev == CONFIG_WRITE then SetMask(e, AddTarget(0, r.aux)) else e
  }

  function Kind(e: Entry): byte {
    e[8] % 128
  }

  function CountOffset(ev: byte): nat {
    if ev == CONFIG_WRITE then 10 else 18
  }

  function RepeatCount(e: Entry): (count: nat)
    ensures count <= U16_MAX
  {
    e[CountOffset(Kind(e))] as int + 256 * e[CountOffset(Kind(e)) + 1] as int
  }

  function SetCount(e: Entry, count: nat): Entry
    requires count <= U16_MAX
  {
    var o := CountOffset(Kind(e));
    e[o := count % 256][o + 1 := count / 256]
  }

  function SetMask(e: Entry, mask: byte): Entry {
    e[12 := mask]
  }

  // A report merged into an existing entry of its kind.
  function Bump(e: Entry, aux: byte): Entry {
    var e1 := SetCount(e, if RepeatCount(e) == U16_MAX then U16_MAX else RepeatCount(e) + 1);
    if Kind(e) == CONFIG_WRITE then SetMask(e1, AddTarget(e1[12], aux)) else e1
  }

  // ---------------------------------------------------------------- one step

  function Add(log: Log, e: Entry, r: Report): Log {
    Place(if |log.history| - log.start == SLOTS then log.(start := log.start + 1) else log, e, r)
  }

  function Place(log: Log, e: Entry, r: Report): Log {
    Log(log.history + [e], log.start, log.merged + [[r]], log.taken + [r])
  }

  // The report r is merged into entry k.
  function Merge(log: Log, k: nat, r: Report): Log
    requires k < |log.history| == |log.merged|
  {
    Log(log.history[k := Bump(log.history[k], r.aux)], log.start, log.merged[k := log.merged[k] + [r]], log.taken + [r])
  }

  // The latest entry of the kind in history[lo..hi].
  function Latest(history: seq<Entry>, lo: nat, hi: nat, ev: byte): (found: Option<nat>)
    requires lo <= hi <= |history|
    ensures found.Some? ==> lo <= found.value < hi && Kind(history[found.value]) == ev
    ensures forall n | (if found.Some? then found.value + 1 else lo) <= n < hi :: Kind(history[n]) != ev
    decreases hi - lo
  {
    if hi == lo then None
    else if Kind(history[hi - 1]) == ev then Some(hi - 1)
    else Latest(history, lo, hi - 1, ev)
  }

  // A repeated report is merged into a kept entry, a configuration write only into the last.
  function MergeFrom(log: Log, ev: byte): (lo: nat)
    requires log.start <= |log.history|
    ensures log.start <= lo <= |log.history|
  {
    if ev == CONFIG_WRITE && |log.history| > log.start then |log.history| - 1 else log.start
  }

  function MergeTarget(log: Log, ev: byte): (k: Option<nat>)
    requires log.start <= |log.history|
    ensures k.Some? ==> MergeFrom(log, ev) <= k.value < |log.history| && Kind(log.history[k.value]) == ev
    ensures forall n | (if k.Some? then k.value + 1 else MergeFrom(log, ev)) <= n < |log.history| ::
              Kind(log.history[n]) != ev
  {
    Latest(log.history, MergeFrom(log, ev), |log.history|, ev)
  }

  // None when the 32-bit sequence number is used up.
  function Append(log: Log, bootLogged: bool, r: Report, bootClock: Clock, clock: Clock): Option<Log>
    requires WellFormed(log)
  {
    var n := |log.history|;
    if !bootLogged then
      if n + 1 >= U32_MAX then None
      else Some(Add(Add(log, NewEntry(n, bootClock, BOOT_REPORT), BOOT_REPORT), NewEntry(n + 1, clock, r), r))
    else
      var k := if r.coalesce then MergeTarget(log, r.ev) else None;
      if k.Some? then Some(Merge(log, k.value, r))
      else if n == U32_MAX then None
      else Some(Add(log, NewEntry(n, clock, r), r))
  }

  function Scrub(log: Log): Log {
    log.(start := |log.history|)
  }

  ghost predicate WellFormed(log: Log) {
    && log.start <= |log.history| <= log.start + SLOTS
    && |log.merged| == |log.history| <= U32_MAX
    && forall n | 0 <= n < |log.history| :: log.history[n][..4] == Le32(n)
  }

  // ---------------------------------------------------------------- hash chain

  function Fold(sha: seq<byte> -> Digest, genesis: Digest, entries: seq<Entry>): Digest {
    if entries == [] then genesis
    else sha(Fold(sha, genesis, entries[..|entries| - 1]) + entries[|entries| - 1])
  }

  // ---------------------------------------------------------------- conservation

  // Entry n stands for the reports merged into it: same kind, saturating repeat count and,
  // for a configuration write, the union of their target bits.
  ghost predicate StandsFor(e: Entry, reports: seq<Report>) {
    && reports != []
    && (forall i | 0 <= i < |reports| :: reports[i].ev == Kind(e))
    && RepeatCount(e) == (if |reports| - 1 <= U16_MAX then |reports| - 1 else U16_MAX)
    && (Kind(e) == CONFIG_WRITE ==>
          forall j: nat :: HasBit(e[12], j) <==> exists i | 0 <= i < |reports| :: TargetBit(reports[i].aux) == j)
  }

  ghost predicate Faithful(log: Log) {
    |log.merged| == |log.history| && forall n | 0 <= n < |log.history| :: StandsFor(log.history[n], log.merged[n])
  }

  // The reports the callers make: enumerated events, and configuration writes without detail.
  predicate Plain(r: Report) {
    r.ev < 128 && (r.ev == CONFIG_WRITE ==> r.detail == [])
  }

  lemma HasNoBit(j: nat)
    ensures !HasBit(0, j)
  {
  }

  lemma NewEntryStandsFor(n: nat, c: Clock, r: Report)
    requires n <= U32_MAX && Plain(r)
    ensures StandsFor(NewEntry(n, c, r), [r]) && NewEntry(n, c, r)[..4] == Le32(n)
  {
    var raw, e := RawEntry(n, c, r), NewEntry(n, c, r);
    assert raw[..4] == Le32(n) && raw[18..] == [0, 0] && raw[10..18] == Detail(r.detail);
    assert raw[8] % 128 == r.ev;
    assert raw[18] == raw[18..][0] && raw[19] == raw[18..][1];
    if r.ev == CONFIG_WRITE {
      assert raw[10] == raw[10..18][0] && raw[11] == raw[10..18][1];
      forall j: nat
        ensures HasBit(e[12], j) <==> exists i | 0 <= i < 1 :: TargetBit([r][i].aux) == j
      {
        assert [r][0] == r;
        SetBitIsOr(0, TargetBit(r.aux), j);
        HasNoBit(j);
      }
    }
  }

  lemma BumpStandsFor(e: Entry, reports: seq<Report>, r: Report)
    requires StandsFor(e, reports) && r.ev == Kind(e)
    ensures StandsFor(Bump(e, r.aux), reports + [r]) && Bump(e, r.aux)[..4] == e[..4]
  {
    var e' := Bump(e, r.aux);
    assert Kind(e') == Kind(e);
    if Kind(e) == CONFIG_WRITE {
      forall j: nat
        ensures HasBit(e'[12], j) <==> exists i | 0 <= i < |reports + [r]| :: TargetBit((reports + [r])[i].aux) == j
      {
        SetBitIsOr(e[12], TargetBit(r.aux), j);
        if i :| 0 <= i < |reports| && TargetBit(reports[i].aux) == j {
          assert (reports + [r])[i] == reports[i];
        }
        assert (reports + [r])[|reports|] == r;
      }
    }
  }

  lemma AddFaithful(log: Log, e: Entry, r: Report)
    requires WellFormed(log) && Faithful(log) && StandsFor(e, [r])
             && |log.history| < U32_MAX && e[..4] == Le32(|log.history|)
    ensures WellFormed(Add(log, e, r)) && Faithful(Add(log, e, r))
  {
    hide StandsFor, Le32;
  }

  lemma MergeFaithful(log: Log, k: nat, r: Report)
    requires WellFormed(log) && Faithful(log) && k < |log.history| && Kind(log.history[k]) == r.ev
    ensures WellFormed(Merge(log, k, r)) && Faithful(Merge(log, k, r))
  {
    hide StandsFor, Bump, Kind, Le32;
    BumpStandsFor(log.history[k], log.merged[k], r);
  }

  lemma ReportFaithful(log: Log, c: Clock, r: Report)
    requires WellFormed(log) && Faithful(log) && Plain(r) && |log.history| < U32_MAX
    ensures var log' := Add(log, NewEntry(|log.history|, c, r), r);
            WellFormed(log') && Faithful(log')
  {
    hide WellFormed, Faithful, StandsFor, NewEntry;
    NewEntryStandsFor(|log.history|, c, r);
    AddFaithful(log, NewEntry(|log.history|, c, r), r);
  }

  lemma AppendFaithful(log: Log, bootLogged: bool, r: Report, bootClock: Clock, clock: Clock)
    requires WellFormed(log) && Faithful(log) && Plain(r)
    requires Append(log, bootLogged, r, bootClock, clock).Some?
    ensures var log' := Append(log, bootLogged, r, bootClock, clock).value;
            WellFormed(log') && Faithful(log')
  {
    hide Faithful, NewEntry, Bump, Kind, Latest;
    if !bootLogged {
      ReportFaithful(log, bootClock, BOOT_REPORT);
      ReportFaithful(Add(log, NewEntry(|log.history|, bootClock, BOOT_REPORT), BOOT_REPORT), clock, r);
    } else {
      var k := if r.coalesce then MergeTarget(log, r.ev) else None;
      if k.Some? {
        MergeFaithful(log, k.value, r);
      } else {
        ReportFaithful(log, clock, r);
      }
    }
  }

  // ---------------------------------------------------------------- what the entries add up to

  // How many reports of a kind the entries of a log stand for.
  function Tally(merged: seq<seq<Report>>, ev: byte): nat {
    if merged == [] then 0 else Tally(merged[..|merged| - 1], ev) + Matching(merged[|merged| - 1], ev)
  }

  function Matching(reports: seq<Report>, ev: byte): nat {
    if reports == [] then 0
    else Matching(reports[..|reports| - 1], ev) + if reports[|reports| - 1].ev == ev then 1 else 0
  }

  // The entries stand for exactly the reports that were written.
  ghost predicate Conserved(log: Log) {
    forall ev: byte :: Tally(log.merged, ev) == Matching(log.taken, ev)
  }

  lemma MatchingAdd(reports: seq<Report>, r: Report, ev: byte)
    ensures Matching(reports + [r], ev) == Matching(reports, ev) + if r.ev == ev then 1 else 0
  {
  }

  lemma {:induction false} TallyUpdate(merged: seq<seq<Report>>, k: nat, r: Report, ev: byte)
    requires k < |merged|
    ensures Tally(merged[k := merged[k] + [r]], ev) == Tally(merged, ev) + if r.ev == ev then 1 else 0
    decreases |merged|
  {
    var n := |merged| - 1;
    var after := merged[k := merged[k] + [r]];
    if k == n {
      assert after[..n] == merged[..n];
      MatchingAdd(merged[k], r, ev);
    } else {
      assert after[..n] == merged[..n][k := merged[k] + [r]];
      TallyUpdate(merged[..n], k, r, ev);
    }
  }

  lemma TallyAdd(merged: seq<seq<Report>>, r: Report, ev: byte)
    ensures Tally(merged + [[r]], ev) == Tally(merged, ev) + if r.ev == ev then 1 else 0
  {
    assert (merged + [[r]])[..|merged|] == merged;
    assert [] + [r] == [r];
    MatchingAdd([], r, ev);
  }

  lemma AddConserved(log: Log, e: Entry, r: Report)
    requires Conserved(log)
    ensures Conserved(Add(log, e, r)) && Add(log, e, r).taken == log.taken + [r]
  {
    hide Tally, Matching;
    forall ev: byte
      ensures Tally(log.merged + [[r]], ev) == Matching(log.taken + [r], ev)
    {
      TallyAdd(log.merged, r, ev);
      MatchingAdd(log.taken, r, ev);
    }
  }

  lemma MergeConserved(log: Log, k: nat, r: Report)
    requires Conserved(log) && k < |log.history| == |log.merged|
    ensures Conserved(Merge(log, k, r))
  {
    hide Tally, Matching;
    forall ev: byte
      ensures Tally(log.merged[k := log.merged[k] + [r]], ev) == Matching(log.taken + [r], ev)
    {
      TallyUpdate(log.merged, k, r, ev);
      MatchingAdd(log.taken, r, ev);
    }
  }

  // What one accepted report adds, the boot report included.
  function Adds(bootLogged: bool, r: Report): seq<Report> {
    (if bootLogged then [] else [BOOT_REPORT]) + [r]
  }

  lemma AppendConserved(log: Log, bootLogged: bool, r: Report, bootClock: Clock, clock: Clock)
    requires WellFormed(log) && Conserved(log) && Append(log, bootLogged, r, bootClock, clock).Some?
    ensures var log' := Append(log, bootLogged, r, bootClock, clock).value;
            Conserved(log') && log'.taken == log.taken + Adds(bootLogged, r)
  {
    hide Conserved, NewEntry, Bump, Kind, Latest;
    if !bootLogged {
      var e := NewEntry(|log.history|, bootClock, BOOT_REPORT);
      AddConserved(log, e, BOOT_REPORT);
      AddConserved(Add(log, e, BOOT_REPORT), NewEntry(|log.history| + 1, clock, r), r);
    } else {
      var k := if r.coalesce then MergeTarget(log, r.ev) else None;
      if k.Some? {
        MergeConserved(log, k.value, r);
      } else {
        AddConserved(log, NewEntry(|log.history|, clock, r), r);
      }
    }
  }

  // ---------------------------------------------------------------- runs

  datatype Event =
    | Reported(r: Report, bootClock: Clock, clock: Clock, flush: Flush)
    | Scrubbed(flush: Flush)
    | Reboot(found: nat)

  // How writing the record back ends. A record whose synchronous commit fails is what load reads
  // from then on, and only a power loss may take it away.
  datatype Flush = NotWritten | NotSynced | Synced

  // The log that load reads, every log that may be found after a power loss, and whether this
  // boot has been recorded.
  datatype Journal = Journal(log: Log, maybe: seq<Log>, bootLogged: bool)

  function Put(j: Journal, log: Log, flush: Flush): Journal {
    match flush
    case NotWritten => j
    case NotSynced => j.(log := log, maybe := j.maybe + [log])
    case Synced => j.(log := log, maybe := [log])
  }

  function Next(j: Journal, e: Event): Journal
    requires WellFormed(j.log)
  {
    match e
    case Reported(r, bootClock, clock, flush) =>
      var log' := Append(j.log, j.bootLogged, r, bootClock, clock);
      if log'.None? then j else Put(j, log'.value, flush).(bootLogged := j.bootLogged || flush.Synced?)
    case Scrubbed(flush) => Put(j, Scrub(j.log), flush)
    case Reboot(i) =>
      var log := if i < |j.maybe| then j.maybe[i] else j.log;
      Journal(log, [log], false)
  }

  // What is read now, and what may be found.
  function Contents(j: Journal): (logs: seq<Log>)
    ensures forall x :: x in logs <==> x == j.log || x in j.maybe
  {
    [j.log] + j.maybe
  }

  ghost predicate Sound(log: Log) {
    WellFormed(log) && Faithful(log) && Conserved(log)
  }

  ghost predicate AllSound(j: Journal) {
    Sound(j.log) && forall i | 0 <= i < |j.maybe| :: Sound(j.maybe[i])
  }

  ghost predicate PlainEvent(e: Event) {
    e.Reported? ==> Plain(e.r)
  }

  // One step reads a content that was there, or one that it makes from what was read.
  lemma NextContents(j: Journal, e: Event)
    requires WellFormed(j.log)
    ensures forall x <- Contents(Next(j, e)) :: x in Contents(j) || Made(j, e) == Some(x)
  {
    hide WellFormed, Append, Scrub;
  }

  // The log that an event writes.
  function Made(j: Journal, e: Event): Option<Log>
    requires WellFormed(j.log)
  {
    match e
    case Reported(r, bootClock, clock, flush) => Append(j.log, j.bootLogged, r, bootClock, clock)
    case Scrubbed(flush) => Some(Scrub(j.log))
    case Reboot(_) => None
  }

  lemma MadeSound(j: Journal, e: Event)
    requires Sound(j.log) && PlainEvent(e) && Made(j, e).Some?
    ensures Sound(Made(j, e).value)
  {
    hide Append, Faithful, Conserved;
    if e.Reported? {
      AppendFaithful(j.log, j.bootLogged, e.r, e.bootClock, e.clock);
      AppendConserved(j.log, j.bootLogged, e.r, e.bootClock, e.clock);
    } else {
      ScrubSound(j.log);
    }
  }

  lemma ScrubSound(log: Log)
    requires Sound(log)
    ensures Sound(Scrub(log))
  {
    hide StandsFor;
  }

  lemma NextSound(j: Journal, e: Event)
    requires AllSound(j) && PlainEvent(e)
    ensures AllSound(Next(j, e))
  {
    hide Sound, Append, Scrub;
    SoundIsWellFormed(j.log);
    if Made(j, e).Some? {
      MadeSound(j, e);
    }
  }

  lemma SoundIsWellFormed(log: Log)
    requires Sound(log)
    ensures WellFormed(log)
  {
  }

  function Run(j: Journal, events: seq<Event>): (j': Journal)
    requires AllSound(j) && forall i | 0 <= i < |events| :: PlainEvent(events[i])
    ensures AllSound(j')
    decreases |events|
  {
    if events == [] then j
    else
      NextSound(j, events[0]);
      Run(Next(j, events[0]), events[1..])
  }

  // ---------------------------------------------------------------- conservation over runs

  // The reports that one event writes.
  function Persists(j: Journal, e: Event): seq<Report>
    requires WellFormed(j.log)
  {
    if e.Reported? && !e.flush.NotWritten? && Made(j, e).Some? then Adds(j.bootLogged, e.r) else []
  }

  function Persisted(j: Journal, events: seq<Event>): seq<Report>
    requires AllSound(j) && forall i | 0 <= i < |events| :: PlainEvent(events[i])
    decreases |events|
  {
    if events == [] then []
    else
      NextSound(j, events[0]);
      Persists(j, events[0]) + Persisted(Next(j, events[0]), events[1..])
  }

  lemma NextTaken(j: Journal, e: Event)
    requires Sound(j.log) && !e.Reboot?
    ensures Next(j, e).log.taken == j.log.taken + Persists(j, e)
  {
    hide Append, WellFormed, Faithful, Conserved;
    if e.Reported? && Made(j, e).Some? {
      AppendConserved(j.log, j.bootLogged, e.r, e.bootClock, e.clock);
    }
  }

  // Over any run, and in everything that may be found after a power loss, the entries stand for exactly
  // the reports that were written there; between two power losses these are the persisted ones, in order.
  lemma {:induction false} ReportsConserved(j: Journal, events: seq<Event>)
    requires AllSound(j) && forall i | 0 <= i < |events| :: PlainEvent(events[i])
    ensures forall x <- Contents(Run(j, events)) :: Conserved(x)
    ensures (forall e <- events :: !e.Reboot?) ==> Run(j, events).log.taken == j.log.taken + Persisted(j, events)
    decreases |events|
  {
    if events == [] {
      ContentsSound(j);
    } else {
      hide AllSound, Sound, WellFormed, Next, Persists, Conserved;
      NextSound(j, events[0]);
      ReportsConserved(Next(j, events[0]), events[1..]);
      if forall e <- events :: !e.Reboot? {
        NowSound(j);
        NextTaken(j, events[0]);
        forall e <- events[1..]
          ensures !e.Reboot?
        {
          assert e in events;
        }
        Assoc(j.log.taken, Persists(j, events[0]), Persisted(Next(j, events[0]), events[1..]));
      }
    }
  }

  lemma ContentsSound(j: Journal)
    requires AllSound(j)
    ensures forall x <- Contents(j) :: Sound(x)
  {
    hide Sound;
    forall x <- Contents(j)
      ensures Sound(x)
    {
      assert x == j.log || exists i :: 0 <= i < |j.maybe| && j.maybe[i] == x;
    }
  }

  lemma NowSound(j: Journal)
    requires AllSound(j)
    ensures Sound(j.log) && WellFormed(j.log)
  {
  }

  // What everything that may be found has taken in begins with `base`.
  ghost predicate AllHold(j: Journal, base: seq<Report>) {
    forall x <- Contents(j) :: base <= x.taken
  }

  lemma NextHolds(j: Journal, e: Event, base: seq<Report>)
    requires AllSound(j) && AllHold(j, base)
    ensures AllHold(Next(j, e), base)
  {
    hide WellFormed, Faithful, Conserved, Append, Next;
    NextContents(j, e);
    assert j.log in Contents(j);
    if e.Reported? && Made(j, e).Some? {
      AppendConserved(j.log, j.bootLogged, e.r, e.bootClock, e.clock);
    }
  }

  // A report whose record was committed synchronously is in everything that any later run can find, behind
  // all that was taken before it.
  lemma {:induction false} CommittedNeverLost(j: Journal, e: Event, events: seq<Event>)
    requires AllSound(j) && PlainEvent(e) && forall i | 0 <= i < |events| :: PlainEvent(events[i])
    requires e.Reported? && e.flush.Synced? && Made(j, e).Some?
    ensures AllSound(Next(j, e)) && AllHold(Run(Next(j, e), events), j.log.taken + Adds(j.bootLogged, e.r))
  {
    NextSound(j, e);
    NextTaken(j, e);
    hide AllSound, Sound, WellFormed, Append;
    HeldInRun(Next(j, e), events, j.log.taken + Adds(j.bootLogged, e.r));
  }

  lemma {:induction false} HeldInRun(j: Journal, events: seq<Event>, base: seq<Report>)
    requires AllSound(j) && AllHold(j, base) && forall i | 0 <= i < |events| :: PlainEvent(events[i])
    ensures AllHold(Run(j, events), base)
    decreases |events|
  {
    hide AllSound, AllHold, Next;
    if events != [] {
      NowSound(j);
      NextSound(j, events[0]);
      NextHolds(j, events[0], base);
      HeldInRun(Next(j, events[0]), events[1..], base);
    }
  }

  // The sum over the entries of a kind of 1 + repeat count, as an auditor would compute it.
  function EntrySum(history: seq<Entry>, ev: byte): nat {
    if history == [] then 0
    else
      var e := history[|history| - 1];
      EntrySum(history[..|history| - 1], ev) + if Kind(e) == ev then 1 + RepeatCount(e) else 0
  }

  lemma {:induction false} SameKind(reports: seq<Report>, ev: byte, kind: byte)
    requires forall i | 0 <= i < |reports| :: reports[i].ev == kind
    ensures Matching(reports, ev) == if kind == ev then |reports| else 0
  {
    if reports != [] {
      SameKind(reports[..|reports| - 1], ev, kind);
    }
  }

  // The auditor's sum never counts too much, and it is exact if and only if no entry of
  // that kind stands for more than 65536 reports.
  lemma {:induction false} EntrySumIsTally(history: seq<Entry>, merged: seq<seq<Report>>, ev: byte)
    requires |merged| == |history| && forall n | 0 <= n < |history| :: StandsFor(history[n], merged[n])
    ensures EntrySum(history, ev) <= Tally(merged, ev)
    ensures EntrySum(history, ev) == Tally(merged, ev) <==>
              forall n | 0 <= n < |history| && Kind(history[n]) == ev :: |merged[n]| <= U16_MAX + 1
    decreases |history|
  {
    if history != [] {
      var n := |history| - 1;
      EntrySumIsTally(history[..n], merged[..n], ev);
      SameKind(merged[n], ev, Kind(history[n]));
      assert forall i | 0 <= i < n :: history[..n][i] == history[i] && merged[..n][i] == merged[i];
    }
  }

  const NEW_JOURNAL: Journal := Journal(EMPTY, [EMPTY], false)

  lemma NewJournalSound()
    ensures AllSound(NEW_JOURNAL)
  {
  }

  // From an empty journal, in everything a run may leave in flash: the auditor's sum is the number of
  // reports of the kind that were written there, exactly when no counter of that kind saturated.
  lemma AuditorCountsReports(events: seq<Event>, ev: byte)
    requires forall i | 0 <= i < |events| :: PlainEvent(events[i])
    ensures AllSound(NEW_JOURNAL)
    ensures forall x <- Contents(Run(NEW_JOURNAL, events)) ::
              |x.merged| == |x.history| &&
              (EntrySum(x.history, ev) == Matching(x.taken, ev) <==>
                 forall n | 0 <= n < |x.history| && Kind(x.history[n]) == ev :: |x.merged[n]| <= U16_MAX + 1)
  {
    NewJournalSound();
    ContentsSound(Run(NEW_JOURNAL, events));
    hide Run, AllSound, WellFormed, StandsFor, EntrySum, Tally, Matching, Kind;
    forall x <- Contents(Run(NEW_JOURNAL, events))
      ensures |x.merged| == |x.history| &&
              (EntrySum(x.history, ev) == Matching(x.taken, ev) <==>
                 forall n | 0 <= n < |x.history| && Kind(x.history[n]) == ev :: |x.merged[n]| <= U16_MAX + 1)
    {
      EntrySumIsTally(x.history, x.merged, ev);
    }
  }

  // ---------------------------------------------------------------- what stays

  // Evicted entries are never altered and nothing leaves the history.
  ghost predicate Extends(a: Log, b: Log) {
    && a.start <= b.start && a.start <= |a.history| <= |b.history|
    && forall n | 0 <= n < a.start :: b.history[n] == a.history[n]
  }

  ghost predicate ExtendsOneOf(logs: seq<Log>, x: Log) {
    exists log <- logs :: Extends(log, x)
  }

  lemma MadeExtends(j: Journal, e: Event)
    requires WellFormed(j.log) && Made(j, e).Some?
    ensures Extends(j.log, Made(j, e).value)
  {
    hide NewEntry, Bump, Kind, Latest, Le32;
  }

  lemma ExtendsTrans(a: Log, b: Log, c: Log)
    requires Extends(a, b) && Extends(b, c)
    ensures Extends(a, c)
  {
  }

  // Whatever a run may leave in flash goes on from something that was there before it.
  lemma {:induction false} EvictedNeverAltered(j: Journal, events: seq<Event>)
    requires AllSound(j) && forall i | 0 <= i < |events| :: PlainEvent(events[i])
    ensures forall x <- Contents(Run(j, events)) :: ExtendsOneOf(Contents(j), x)
    decreases |events|
  {
    hide Sound, WellFormed, Append, Next, Scrub;
    ContentsSound(j);
    if events == [] {
      forall x <- Contents(j)
        ensures ExtendsOneOf(Contents(j), x)
      {
        SelfExtends(x);
      }
    } else {
      NowSound(j);
      NextSound(j, events[0]);
      var j1 := Next(j, events[0]);
      EvictedNeverAltered(j1, events[1..]);
      forall x <- Contents(Run(j, events))
        ensures ExtendsOneOf(Contents(j), x)
      {
        assert ExtendsOneOf(Contents(j1), x);
        var y :| y in Contents(j1) && Extends(y, x);
        NextExtends(j, events[0], y);
        var z :| z in Contents(j) && Extends(z, y);
        ExtendsTrans(z, y, x);
      }
    }
  }

  lemma SelfExtends(x: Log)
    requires Sound(x)
    ensures Extends(x, x)
  {
  }

  lemma NextExtends(j: Journal, e: Event, y: Log)
    requires AllSound(j) && PlainEvent(e) && WellFormed(j.log) && y in Contents(Next(j, e))
    ensures ExtendsOneOf(Contents(j), y)
  {
    hide WellFormed, Faithful, Conserved, Append, Next, Scrub, Extends;
    ContentsSound(j);
    NextContents(j, e);
    if y in Contents(j) {
      SelfExtends(y);
    } else {
      MadeExtends(j, e);
      assert j.log in Contents(j);
    }
  }

  // The hash of the epoch and the window together is the hash of the whole history.
  lemma {:induction false} FoldSplit(sha: seq<byte> -> Digest, genesis: Digest, entries: seq<Entry>, k: nat)
    requires k <= |entries|
    ensures Fold(sha, Fold(sha, genesis, entries[..k]), entries[k..]) == Fold(sha, genesis, entries)
    decreases |entries|
  {
    var n := |entries|;
    if k == n {
      assert entries[..k] == entries && entries[k..] == [];
    } else {
      FoldSplit(sha, genesis, entries[..n - 1], k);
      assert entries[..n - 1][..k] == entries[..k] && entries[..n - 1][k..] == entries[k..][..n - 1 - k];
    }
  }

  // Scrubbing forgets details but changes neither the head nor the next sequence number.
  lemma ScrubKeepsHead(sha: seq<byte> -> Digest, genesis: Digest, log: Log)
    requires WellFormed(log)
    ensures var s := Scrub(log);
            && |s.history| == |log.history|
            && Fold(sha, Fold(sha, genesis, s.history[..s.start]), s.history[s.start..]) ==
               Fold(sha, Fold(sha, genesis, log.history[..log.start]), log.history[log.start..])
  {
    FoldSplit(sha, genesis, log.history, log.start);
    FoldSplit(sha, genesis, log.history, |log.history|);
  }
}
