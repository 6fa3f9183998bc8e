/** The index of relying parties with resident credentials (src/fido/credential.c): one pass over the
    legacy RP records and the credential markers, one entry for each RP hash. */
module RpIndex {
  import opened Bytes

  const MAX_RESIDENT_CREDENTIALS: nat := 256
  const EF_CRED: nat := 0xCF00
  const EF_RP: nat := 0xD000

  type Hash = seq<byte>

  // An RP hash and the file it was found in.
  datatype Entry = Entry(hash: Hash, fid: nat)

  // What the scan sees: per slot, the RP hash of a valid legacy record, or of a live credential marker.
  datatype Storage = Storage(legacy: seq<Option<Hash>>, markers: seq<Option<Hash>>)

  predicate WellFormed(s: Storage) {
    |s.legacy| == MAX_RESIDENT_CREDENTIALS == |s.markers|
  }

  // ---------------------------------------------------------------- what the index is

  function EntriesFrom(slots: seq<Option<Hash>>, fid: nat): (entries: seq<Entry>)
    decreases |slots|
  {
    if slots == [] then []
    else
      var n := |slots| - 1;
      EntriesFrom(slots[..n], fid) + if slots[n].Some? then [Entry(slots[n].value, fid + n)] else []
  }

  // Every file that names an RP, in the order of the scan.
  function Sources(s: Storage): seq<Entry> {
    EntriesFrom(s.legacy, EF_RP) + EntriesFrom(s.markers, EF_CRED)
  }

  lemma {:induction false} EntriesExact(slots: seq<Option<Hash>>, fid: nat, e: Entry)
    ensures e in EntriesFrom(slots, fid) <==> exists i: nat :: NamesRp(slots, fid, i, e)
    decreases |slots|
  {
    if slots != [] {
      var n := |slots| - 1;
      EntriesExact(slots[..n], fid, e);
      if i: nat :| NamesRp(slots, fid, i, e) {
        assert i < n ==> NamesRp(slots[..n], fid, i, e);
      }
      if i: nat :| NamesRp(slots[..n], fid, i, e) {
        assert NamesRp(slots, fid, i, e);
      }
      if slots[n].Some? && e == Entry(slots[n].value, fid + n) {
        assert NamesRp(slots, fid, n, e);
      }
    }
  }

  // Slot i, kept in file fid + i, names the RP of the entry.
  predicate NamesRp(slots: seq<Option<Hash>>, fid: nat, i: nat, e: Entry) {
    i < |slots| && slots[i] == Some(e.hash) && e.fid == fid + i
  }

  lemma {:induction false} EntriesInOrder(slots: seq<Option<Hash>>, fid: nat)
    ensures var entries := EntriesFrom(slots, fid);
            && (forall e <- entries :: fid <= e.fid < fid + |slots|)
            && forall i, j | 0 <= i < j < |entries| :: entries[i].fid < entries[j].fid
    decreases |slots|
  {
    if slots != [] {
      var n := |slots| - 1;
      EntriesInOrder(slots[..n], fid);
      var before, entries := EntriesFrom(slots[..n], fid), EntriesFrom(slots, fid);
      assert entries == before || entries == before + [Entry(slots[n].value, fid + n)];
      assert forall i | 0 <= i < |before| :: before[i] in before;
    }
  }

  // The scan sees exactly the valid legacy records and the live markers, the legacy records first, each kind in
  // slot order.
  lemma SourcesIff(s: Storage, e: Entry)
    ensures e in Sources(s) <==>
              || (exists i: nat :: NamesRp(s.legacy, 0xD000, i, e))
              || (exists i: nat :: NamesRp(s.markers, 0xCF00, i, e))
    ensures exists n: nat ::
              n <= |Sources(s)| && InSlotOrder(Sources(s)[..n], 0xD000) && InSlotOrder(Sources(s)[n..], 0xCF00)
  {
    EntriesExact(s.legacy, EF_RP, e);
    EntriesExact(s.markers, EF_CRED, e);
    EntriesInOrder(s.legacy, EF_RP);
    EntriesInOrder(s.markers, EF_CRED);
    var a, b := EntriesFrom(s.legacy, EF_RP), EntriesFrom(s.markers, EF_CRED);
    assert InSlotOrder(a, EF_RP) && InSlotOrder(b, EF_CRED);
    assert Sources(s)[..|a|] == a && Sources(s)[|a|..] == b;
  }

  predicate InSlotOrder(entries: seq<Entry>, fid: nat) {
    && (forall e <- entries :: fid <= e.fid)
    && forall i, j | 0 <= i < j < |entries| :: entries[i].fid < entries[j].fid
  }

  predicate Mentions(entries: seq<Entry>, hash: Hash) {
    exists i :: 0 <= i < |entries| && entries[i].hash == hash
  }

  function Hashes(entries: seq<Entry>): set<Hash> {
    set e | e in entries :: e.hash
  }

  predicate Distinct(entries: seq<Entry>) {
    forall i, j | 0 <= i < j < |entries| :: entries[i].hash != entries[j].hash
  }

  // The first file of each RP hash, in order of first appearance.
  function Firsts(sources: seq<Entry>): (firsts: seq<Entry>)
    decreases |sources|
  {
    if sources == [] then []
    else
      var n := |sources| - 1;
      var before := Firsts(sources[..n]);
      if Mentions(before, sources[n].hash) then before else before + [sources[n]]
  }

  // The index that is built, and whether everything fitted: at the 257th RP the scan stops.
  function Indexed(sources: seq<Entry>): (r: (seq<Entry>, bool))
    ensures |r.0| <= MAX_RESIDENT_CREDENTIALS
    decreases |sources|
  {
    if sources == [] then ([], true)
    else
      var n := |sources| - 1;
      var (before, ok) := Indexed(sources[..n]);
      if !ok then (before, false)
      else if Mentions(before, sources[n].hash) then (before, true)
      else if |before| >= MAX_RESIDENT_CREDENTIALS then (before, false)
      else (before + [sources[n]], true)
  }

  lemma HashesAppend(entries: seq<Entry>, e: Entry)
    ensures Hashes(entries + [e]) == Hashes(entries) + {e.hash}
    ensures Mentions(entries, e.hash) <==> e.hash in Hashes(entries)
  {
    forall h | h in Hashes(entries) + {e.hash}
      ensures h in Hashes(entries + [e])
    {
      if h in Hashes(entries) {
        var i :| 0 <= i < |entries| && entries[i].hash == h;
        assert (entries + [e])[i].hash == h;
      } else {
        assert (entries + [e])[|entries|].hash == h;
      }
    }
  }

  lemma {:induction false} FirstsDistinct(sources: seq<Entry>)
    ensures Distinct(Firsts(sources))
    ensures Hashes(Firsts(sources)) == Hashes(sources)
    ensures |Firsts(sources)| == |Hashes(sources)|
    decreases |sources|
  {
    hide Hashes, Mentions;
    if sources == [] {
      NoHashes();
    } else {
      var n := |sources| - 1;
      var init, last := sources[..n], sources[n];
      FirstsDistinct(init);
      var before := Firsts(init);
      assert sources == init + [last];
      HashesAppend(init, last);
      HashesAppend(before, last);
      if !Mentions(before, last.hash) {
        DistinctAppend(before, last);
      }
    }
  }

  lemma NoHashes()
    ensures Hashes([]) == {}
  {
  }

  lemma DistinctAppend(entries: seq<Entry>, e: Entry)
    requires Distinct(entries) && !Mentions(entries, e.hash)
    ensures Distinct(entries + [e])
  {
  }

  // The first source that names an RP is the one that is kept.
  lemma {:induction false} FirstsAreFirst(sources: seq<Entry>, i: nat)
    requires i < |sources|
    ensures sources[i] in Firsts(sources) || Mentions(sources[..i], sources[i].hash)
    decreases |sources|
  {
    var n := |sources| - 1;
    var before := Firsts(sources[..n]);
    if i < n {
      FirstsAreFirst(sources[..n], i);
      assert sources[..n][..i] == sources[..i];
    } else if Mentions(before, sources[n].hash) {
      FirstsDistinct(sources[..n]);
      assert sources[n].hash in Hashes(before);
      assert Hashes(before) == Hashes(sources[..n]);
    }
  }

  // The scan succeeds if and only if there are at most 256 distinct RPs, and then the index is exactly
  // one entry for each of them.
  lemma {:induction false} IndexedIff(sources: seq<Entry>)
    ensures Indexed(sources).1 <==> |Hashes(sources)| <= MAX_RESIDENT_CREDENTIALS
    ensures Indexed(sources).1 ==> Indexed(sources).0 == Firsts(sources)
    decreases |sources|
  {
    if sources != [] {
      var n := |sources| - 1;
      IndexedIff(sources[..n]);
      FirstsDistinct(sources[..n]);
      FirstsDistinct(sources);
    }
  }

  lemma {:induction false} FullSlots(slots: seq<Option<Hash>>, fid: nat)
    requires forall i | 0 <= i < |slots| :: slots[i].Some?
    ensures |EntriesFrom(slots, fid)| == |slots|
    ensures forall i | 0 <= i < |slots| :: EntriesFrom(slots, fid)[i] == Entry(slots[i].value, fid + i)
    decreases |slots|
  {
    if slots != [] {
      FullSlots(slots[..|slots| - 1], fid);
    }
  }

  lemma {:induction false} AllFirst(sources: seq<Entry>)
    requires Distinct(sources)
    ensures Firsts(sources) == sources
    decreases |sources|
  {
    if sources != [] {
      var n := |sources| - 1;
      assert sources == sources[..n] + [sources[n]];
      AllFirst(sources[..n]);
    }
  }

  lemma {:induction false} IndexStarts(sources: seq<Entry>)
    requires sources != []
    ensures Indexed(sources).0 != [] && Indexed(sources).0[0] == sources[0]
    decreases |sources|
  {
    if |sources| > 1 {
      IndexStarts(sources[..|sources| - 1]);
    }
  }

  // ---------------------------------------------------------------- the index in its arrays

  function Zip(hashes: seq<Hash>, fids: seq<nat>): (entries: seq<Entry>)
    requires |hashes| == |fids|
    ensures |entries| == |hashes|
    ensures forall i | 0 <= i < |hashes| :: entries[i] == Entry(hashes[i], fids[i])
  {
    seq(|hashes|, i requires 0 <= i < |hashes| == |fids| => Entry(hashes[i], fids[i]))
  }

  lemma IndexedAppend(sources: seq<Entry>, e: Entry)
    ensures var (before, ok) := Indexed(sources);
            Indexed(sources + [e]) ==
              if !ok then (before, false)
              else if Mentions(before, e.hash) then (before, true)
              else if |before| >= MAX_RESIDENT_CREDENTIALS then (before, false)
              else (before + [e], true)
  {
  }

  lemma {:induction false} IndexedStops(sources: seq<Entry>, more: seq<Entry>)
    requires !Indexed(sources).1
    ensures Indexed(sources + more) == Indexed(sources)
    decreases |more|
  {
    if more == [] {
      assert sources + more == sources;
    } else {
      var n := |more| - 1;
      IndexedStops(sources, more[..n]);
      IndexedAppend(sources + more[..n], more[n]);
      assert sources + more == sources + more[..n] + [more[n]];
    }
  }

  lemma {:induction false} EntriesFromPrefix(slots: seq<Option<Hash>>, fid: nat, i: nat)
    requires i <= |slots|
    ensures EntriesFrom(slots[..i], fid) <= EntriesFrom(slots, fid)
    decreases |slots|
  {
    if i < |slots| {
      var n := |slots| - 1;
      EntriesFromPrefix(slots[..n], fid, i);
      assert slots[..n][..i] == slots[..i];
    } else {
      assert slots[..i] == slots;
    }
  }

  // The index after i slots of a scan.
  function Scanned(done: seq<Entry>, slots: seq<Option<Hash>>, fid: nat, i: nat): (r: (seq<Entry>, bool))
    requires i <= |slots|
    ensures |r.0| <= MAX_RESIDENT_CREDENTIALS
  {
    Indexed(done + EntriesFrom(slots[..i], fid))
  }

  lemma ScannedEnds(done: seq<Entry>, slots: seq<Option<Hash>>, fid: nat)
    ensures Scanned(done, slots, fid, 0) == Indexed(done)
    ensures Scanned(done, slots, fid, |slots|) == Indexed(done + EntriesFrom(slots, fid))
  {
    assert done + EntriesFrom(slots[..0], fid) == done;
    assert slots[..|slots|] == slots;
  }

  lemma ScanOne(done: seq<Entry>, slots: seq<Option<Hash>>, fid: nat, i: nat)
    requires i < |slots| && Scanned(done, slots, fid, i).1
    ensures var before := Scanned(done, slots, fid, i).0;
            Scanned(done, slots, fid, i + 1) ==
              if slots[i].None? || Mentions(before, slots[i].value) then (before, true)
              else if |before| >= MAX_RESIDENT_CREDENTIALS then (before, false)
              else (before + [Entry(slots[i].value, fid + i)], true)
  {
    var sources := done + EntriesFrom(slots[..i], fid);
    assert slots[..i + 1][..i] == slots[..i];
    if slots[i].Some? {
      var e := Entry(slots[i].value, fid + i);
      assert done + EntriesFrom(slots[..i + 1], fid) == sources + [e];
      IndexedAppend(sources, e);
    } else {
      assert EntriesFrom(slots[..i + 1], fid) == EntriesFrom(slots[..i], fid);
    }
  }

  lemma ScanRest(done: seq<Entry>, slots: seq<Option<Hash>>, fid: nat, i: nat) returns (rest: seq<Entry>)
    requires i <= |slots|
    ensures done + EntriesFrom(slots, fid) == done + EntriesFrom(slots[..i], fid) + rest
  {
    hide *;
    var before := EntriesFrom(slots[..i], fid);
    EntriesFromPrefix(slots, fid, i);
    rest := EntriesFrom(slots, fid)[|before|..];
    Assoc(done, before, rest);
    assert EntriesFrom(slots, fid) == before + rest;
  }

  lemma ScanStops(done: seq<Entry>, slots: seq<Option<Hash>>, fid: nat, i: nat)
    requires i <= |slots| && !Scanned(done, slots, fid, i).1
    ensures Indexed(done + EntriesFrom(slots, fid)) == Scanned(done, slots, fid, i)
  {
    hide Indexed, EntriesFrom;
    var rest := ScanRest(done, slots, fid, i);
    IndexedStops(done + EntriesFrom(slots[..i], fid), rest);
  }

  class RpTable {
    const hashes: array<Hash>
    const fids: array<nat>
    var count: nat

    ghost predicate Valid()
      reads this, hashes, fids
    {
      hashes.Length == MAX_RESIDENT_CREDENTIALS == fids.Length && count <= MAX_RESIDENT_CREDENTIALS
    }

    ghost function Entries(): (entries: seq<Entry>)
      reads this, hashes, fids
      requires Valid()
      ensures |entries| == count
    {
      Zip(hashes[..count], fids[..count])
    }

    constructor ()
      ensures Valid() && fresh(hashes) && fresh(fids) && Entries() == []
    {
      hashes := new Hash[MAX_RESIDENT_CREDENTIALS](_ => []);
      fids := new nat[MAX_RESIDENT_CREDENTIALS](_ => 0);
      count := 0;
    }

    // credential_rp_index_add
    method Add(hash: Hash, fid: nat) returns (ok: bool)
      requires Valid()
      modifies this`count, hashes, fids
      ensures Valid()
      ensures ok == (Mentions(old(Entries()), hash) || old(count) < MAX_RESIDENT_CREDENTIALS)
      ensures Entries() == if !ok || Mentions(old(Entries()), hash) then old(Entries())
                           else old(Entries()) + [Entry(hash, fid)]
    {
      var i := 0;
      while i < count
        invariant 0 <= i <= count
        invariant forall j | 0 <= j < i :: hashes[j] != hash
      {
        if hashes[i] == hash {
          assert Entries()[i].hash == hash;
          return true;
        }
        i := i + 1;
      }
      assert !Mentions(Entries(), hash);
      if count >= MAX_RESIDENT_CREDENTIALS {
        return false;
      }
      hashes[count] := hash;
      fids[count] := fid;
      count := count + 1;
      ok := true;
    }

    // One of the two scans of credential_rp_count; `done` is what has been scanned before.
    method AddSlots(slots: seq<Option<Hash>>, fid: nat, ghost done: seq<Entry>) returns (ok: bool)
      requires Valid() && Indexed(done) == (Entries(), true)
      modifies this`count, hashes, fids
      ensures Valid() && (Entries(), ok) == Indexed(done + EntriesFrom(slots, fid))
    {
      var i := 0;
      ScannedEnds(done, slots, fid);
      hide *;
      while i < |slots|
        invariant 0 <= i <= |slots| && Valid()
        invariant Scanned(done, slots, fid, i) == (Entries(), true)
      {
        ScanOne(done, slots, fid, i);
        if slots[i].Some? {
          ok := Add(slots[i].value, fid + i);
          if !ok {
            ScanStops(done, slots, fid, i + 1);
            return;
          }
        }
        i := i + 1;
      }
      ok := true;
    }

    // credential_rp_count
    method Count(s: Storage) returns (ok: bool)
      requires Valid() && WellFormed(s)
      modifies this`count, hashes, fids
      ensures Valid() && (Entries(), ok) == Indexed(Sources(s))
    {
      count := 0;
      ok := AddSlots(s.legacy, EF_RP, []);
      assert [] + EntriesFrom(s.legacy, EF_RP) == EntriesFrom(s.legacy, EF_RP);
      if !ok {
        IndexedStops(EntriesFrom(s.legacy, EF_RP), EntriesFrom(s.markers, EF_CRED));
        return;
      }
      ok := AddSlots(s.markers, EF_CRED, EntriesFrom(s.legacy, EF_RP));
    }
  }
}
