// Per-thread reconstruction buckets: each thread appends to its own part files through a small
// evicting set of buffers, and the loader merges the parts. A record stands for the vector and
// norm computed from its node, which the node determines.
module ReconBuckets {
  import opened Sorting
  import opened GidBuckets

  const FLUSH_BYTES: nat := 8 * 1024 * 1024

  function MaxActive(nbucket: nat): (r: nat)
    ensures 1 <= r <= 16
  {
    if nbucket < 1 then 1 else if nbucket < 16 then nbucket else 16
  }

  datatype Active = Active(b: nat, lastUse: nat, buf: seq<Record>, isOpen: bool)

  // A part that does not exist reads as empty.
  function FileOf(disk: Disk, b: nat): seq<Record> {
    if b in disk then disk[b] else []
  }

  ghost predicate IsActive(active: seq<Active>, b: nat) {
    exists k :: 0 <= k < |active| && active[k].b == b
  }

  // Each bucket at most once.
  ghost predicate OneEach(active: seq<Active>) {
    forall j, k | 0 <= j < k < |active| :: active[j].b != active[k].b
  }

  // What bucket b's part must hold in the end.
  ghost function Due(found: Disk, log: seq<Record>, b: nat, size: nat): seq<Record>
    requires size > 0
  {
    FileOf(found, b) + BucketOf(log, b, size)
  }

  // Part plus buffer is what is due; the part alone where no buffer is active.
  ghost predicate Kept(active: seq<Active>, disk: Disk, found: Disk, log: seq<Record>, size: nat)
    requires size > 0
  {
    && (forall k | 0 <= k < |active| ::
          FileOf(disk, active[k].b) + active[k].buf == Due(found, log, active[k].b, size))
    && (forall b: nat | !IsActive(active, b) :: FileOf(disk, b) == Due(found, log, b, size))
  }

  // No entry was used longer ago than entry k.
  ghost predicate LeastUsed(active: seq<Active>, k: nat) {
    k < |active| && forall j | 0 <= j < |active| :: active[k].lastUse <= active[j].lastUse
  }

  class ThreadWriter {
    const size: nat
    const maxActive: nat
    const recBytes: nat
    ghost const found: Disk
    var disk: Disk
    var active: seq<Active>
    var tick: nat
    ghost var log: seq<Record>

    ghost predicate Valid()
      reads this
    {
      && size > 0 && 1 <= maxActive && |active| <= maxActive && OneEach(active)
      && Kept(active, disk, found, log, size)
      && forall k | 0 <= k < |active| :: active[k].lastUse <= tick
    }

    constructor (bucketSize: nat, nbucket: nat, bytes: nat, parts: Disk)
      requires bucketSize > 0
      ensures Valid() && log == [] && found == parts && size == bucketSize && recBytes == bytes && active == []
      ensures maxActive == if nbucket < 1 then 1 else if nbucket > 16 then 16 else nbucket
    {
      size, maxActive, recBytes, found := bucketSize, MaxActive(nbucket), bytes, parts;
      disk, active, tick, log := parts, [], 0, [];
    }

    // Appends entry k's buffer to its part, opening it first if need be.
    method FlushEntry(k: nat)
      requires Valid() && k < |active|
      modifies `disk, `active
      ensures Valid() && |active| == |old(active)| && active[k].buf == []
      ensures active == old(active)[k := active[k]]
      ensures active[k].b == old(active)[k].b && active[k].lastUse == old(active)[k].lastUse
    {
      hide BucketOf, OneEach, Due;
      if active[k].buf == [] {
        return;
      }
      var e := active[k];
      FlushKeeps(active, disk, found, log, size, k, e.(buf := [], isOpen := true));
      disk := disk[e.b := FileOf(disk, e.b) + e.buf];
      active := active[k := e.(buf := [], isOpen := true)];
    }

    method CloseEntry(k: nat)
      requires Valid() && k < |active|
      modifies `active
      ensures Valid() && active == old(active)[k := old(active)[k].(isOpen := false)]
    {
      hide BucketOf, Due;
      SameBuckets(active, active[k := active[k].(isOpen := false)]);
      active := active[k := active[k].(isOpen := false)];
    }

    // The entry to evict: none was used longer ago.
    method LeastRecent() returns (ev: nat)
      requires |active| > 0
      ensures LeastUsed(active, ev)
    {
      ev := 0;
      for i := 1 to |active|
        invariant ev < |active| && forall k | 0 <= k < i :: active[ev].lastUse <= active[k].lastUse
      {
        if active[i].lastUse < active[ev].lastUse {
          ev := i;
        }
      }
    }

    // The entry of bucket b: as it is, a new one, or the least recently used one written out and
    // turned over.
    method GetEntry(b: nat) returns (k: nat)
      requires Valid()
      modifies `disk, `active, `tick
      ensures Valid() && k < |active| && active[k].b == b && active[k].lastUse == tick == old(tick) + 1
      ensures active == if k < |old(active)| then old(active)[k := active[k]] else old(active) + [active[k]]
      ensures k >= |old(active)| ==> |old(active)| < maxActive && active[k].buf == []
      ensures k < |old(active)| ==>
        || (old(active)[k].b == b && active[k].buf == old(active)[k].buf)
        || (|old(active)| == maxActive && old(active)[k].b != b && active[k].buf == [] && LeastUsed(old(active), k))
    {
      hide BucketOf, Due, Kept, OneEach;
      tick := tick + 1;
      k := 0;
      while k < |active|
        invariant k <= |active| && Valid() && active == old(active) && tick == old(tick) + 1
        invariant forall j | 0 <= j < k :: active[j].b != b
      {
        if active[k].b == b {
          TouchKeeps(active, disk, found, log, size, k, active[k].(lastUse := tick));
          active := active[k := active[k].(lastUse := tick)];
          return;
        }
        k := k + 1;
      }
      if |active| < maxActive {
        NewKeeps(active, disk, found, log, size, Active(b, tick, [], false));
        active := active + [Active(b, tick, [], false)];
        return;
      }
      k := LeastRecent();
      FlushEntry(k);
      CloseEntry(k);
      TurnKeeps(active, disk, found, log, size, k, Active(b, tick, [], false));
      active := active[k := Active(b, tick, [], false)];
    }

    // Buffers one record in its bucket's entry. A buffer is written out first if the record would take it
    // past 8 MiB, and afterwards if it holds 8 MiB.
    method AppendRecord(rec: Record) returns (ghost at: nat)
      requires Valid()
      modifies this
      ensures Valid() && log == old(log) + [rec] && at < |active| && active[at].b == BucketIndex(rec.gid, size)
      ensures
        var kept := if at < |old(active)| && old(active)[at].b == active[at].b then old(active)[at].buf else [];
        var first := if recBytes * |kept| + recBytes > 8 * 1024 * 1024 then [] else kept;
        active[at].buf == if recBytes * |first + [rec]| >= 8 * 1024 * 1024 then [] else first + [rec]
    {
      hide BucketOf, Due, Kept, OneEach, BucketIndex;
      var k := GetEntry(BucketIndex(rec.gid, size));
      at := k;
      if recBytes * |active[k].buf| + recBytes > FLUSH_BYTES {
        FlushEntry(k);
      }
      AppendKeeps(active, disk, found, log, size, k, rec);
      active := active[k := active[k].(buf := active[k].buf + [rec])];
      log := log + [rec];
      if recBytes * |active[k].buf| >= FLUSH_BYTES {
        FlushEntry(k);
      }
    }

    // Writes out what is left; every part then holds all that is due.
    method FlushAll()
      requires Valid()
      modifies this
      ensures Valid() && log == old(log)
      ensures forall b: nat :: FileOf(disk, b) == Due(found, log, b, size)
    {
      hide BucketOf, Due, OneEach;
      for k := 0 to |active|
        invariant Valid() && log == old(log) && |active| == |old(active)|
        invariant forall j | 0 <= j < k :: active[j].buf == []
      {
        FlushEntry(k);
        CloseEntry(k);
      }
      AllWritten(active, disk, found, log, size);
    }
  }

  // ---- Steps of the writer, on values ----

  lemma FlushKeeps(active: seq<Active>, disk: Disk, found: Disk, log: seq<Record>, size: nat, k: nat, e: Active)
    requires size > 0 && k < |active| && OneEach(active) && Kept(active, disk, found, log, size)
    requires e.b == active[k].b && e.buf == []
    ensures OneEach(active[k := e])
    ensures Kept(active[k := e], disk[e.b := FileOf(disk, e.b) + active[k].buf], found, log, size)
  {
    hide BucketOf, Due;
    SameBuckets(active, active[k := e]);
    forall b: nat | !IsActive(active, b)
      ensures b != e.b
    {
    }
  }

  // Replacing entries bucket for bucket leaves the set of active buckets as it is.
  lemma SameBuckets(active: seq<Active>, other: seq<Active>)
    requires |active| == |other| && forall k | 0 <= k < |active| :: active[k].b == other[k].b
    ensures OneEach(active) <==> OneEach(other)
    ensures forall b :: IsActive(active, b) <==> IsActive(other, b)
  {
    forall b | IsActive(active, b)
      ensures IsActive(other, b)
    {
      var k :| 0 <= k < |active| && active[k].b == b;
      assert other[k].b == b;
    }
    forall b | IsActive(other, b)
      ensures IsActive(active, b)
    {
      var k :| 0 <= k < |other| && other[k].b == b;
      assert active[k].b == b;
    }
    if OneEach(active) {
      forall j, k | 0 <= j < k < |other|
        ensures other[j].b != other[k].b
      {
        assert active[j].b != active[k].b;
      }
    }
    if OneEach(other) {
      forall j, k | 0 <= j < k < |active|
        ensures active[j].b != active[k].b
      {
        assert other[j].b != other[k].b;
      }
    }
  }

  lemma TouchKeeps(active: seq<Active>, disk: Disk, found: Disk, log: seq<Record>, size: nat, k: nat, e: Active)
    requires size > 0 && k < |active| && OneEach(active) && Kept(active, disk, found, log, size)
    requires e.b == active[k].b && e.buf == active[k].buf
    ensures OneEach(active[k := e]) && Kept(active[k := e], disk, found, log, size)
  {
    hide BucketOf, Due;
    SameBuckets(active, active[k := e]);
  }

  lemma NewKeeps(active: seq<Active>, disk: Disk, found: Disk, log: seq<Record>, size: nat, e: Active)
    requires size > 0 && OneEach(active) && Kept(active, disk, found, log, size)
    requires e.buf == [] && forall k | 0 <= k < |active| :: active[k].b != e.b
    ensures OneEach(active + [e]) && Kept(active + [e], disk, found, log, size)
  {
    hide BucketOf, Due;
    var next := active + [e];
    forall b: nat | IsActive(active, b)
      ensures IsActive(next, b)
    {
      var k :| 0 <= k < |active| && active[k].b == b;
      assert next[k].b == b;
    }
    assert next[|active|] == e && !IsActive(active, e.b);
    assert FileOf(disk, e.b) + [] == FileOf(disk, e.b);
  }

  lemma TurnKeeps(active: seq<Active>, disk: Disk, found: Disk, log: seq<Record>, size: nat, k: nat, e: Active)
    requires size > 0 && k < |active| && OneEach(active) && Kept(active, disk, found, log, size)
    requires active[k].buf == [] && e.buf == [] && forall j | 0 <= j < |active| :: active[j].b != e.b
    ensures OneEach(active[k := e]) && Kept(active[k := e], disk, found, log, size)
  {
    hide BucketOf, Due, FileOf;
    var next := active[k := e];
    var gone := active[k].b;
    assert FileOf(disk, gone) + [] == FileOf(disk, gone) && FileOf(disk, e.b) + [] == FileOf(disk, e.b);
    assert !IsActive(active, e.b);
    TurnOneEach(active, k, e);
    forall j | 0 <= j < |next|
      ensures FileOf(disk, next[j].b) + next[j].buf == Due(found, log, next[j].b, size)
    {
      assert j != k ==> next[j] == active[j];
    }
    forall b: nat | !IsActive(next, b)
      ensures FileOf(disk, b) == Due(found, log, b, size)
    {
      if IsActive(active, b) {
        var j :| 0 <= j < |active| && active[j].b == b;
        assert next[j].b == b || b == gone;
      }
    }
  }

  lemma TurnOneEach(active: seq<Active>, k: nat, e: Active)
    requires k < |active| && OneEach(active) && forall j | 0 <= j < |active| :: active[j].b != e.b
    ensures OneEach(active[k := e])
  {
  }

  lemma AppendKeeps(active: seq<Active>, disk: Disk, found: Disk, log: seq<Record>, size: nat, k: nat, rec: Record)
    requires size > 0 && k < |active| && OneEach(active) && Kept(active, disk, found, log, size)
    requires active[k].b == BucketIndex(rec.gid, size)
    ensures var next := active[k := active[k].(buf := active[k].buf + [rec])];
      OneEach(next) && Kept(next, disk, found, log + [rec], size)
  {
    hide BucketOf, BucketIndex, Due;
    var e := active[k].(buf := active[k].buf + [rec]);
    var next := active[k := e];
    SameBuckets(active, next);
    assert IsActive(active, e.b);
    forall b: nat | !IsActive(next, b)
      ensures FileOf(disk, b) == Due(found, log + [rec], b, size)
    {
      DueGrows(found, log, rec, b, size);
    }
    forall j | 0 <= j < |next|
      ensures FileOf(disk, next[j].b) + next[j].buf == Due(found, log + [rec], next[j].b, size)
    {
      DueGrows(found, log, rec, next[j].b, size);
      assert FileOf(disk, active[j].b) + active[j].buf == Due(found, log, active[j].b, size);
      if j == k {
        assert FileOf(disk, e.b) + (active[k].buf + [rec]) == FileOf(disk, e.b) + active[k].buf + [rec];
      } else {
        assert active[j].b != active[k].b;
      }
    }
  }

  lemma DueGrows(found: Disk, log: seq<Record>, rec: Record, b: nat, size: nat)
    requires size > 0
    ensures Due(found, log + [rec], b, size) ==
      if BucketIndex(rec.gid, size) == b then Due(found, log, b, size) + [rec] else Due(found, log, b, size)
  {
    hide BucketOf, BucketIndex;
    ShareGrows(log, rec, b, size);
  }

  lemma ShareGrows(log: seq<Record>, rec: Record, b: nat, size: nat)
    requires size > 0
    ensures BucketOf(log + [rec], b, size) ==
      BucketOf(log, b, size) + (if BucketIndex(rec.gid, size) == b then [rec] else [])
  {
    hide BucketIndex;
    assert (log + [rec])[..|log|] == log;
  }

  lemma AllWritten(active: seq<Active>, disk: Disk, found: Disk, log: seq<Record>, size: nat)
    requires size > 0 && Kept(active, disk, found, log, size) && forall k | 0 <= k < |active| :: active[k].buf == []
    ensures forall b: nat :: FileOf(disk, b) == Due(found, log, b, size)
  {
    hide BucketOf, Due;
    forall b: nat
      ensures FileOf(disk, b) == Due(found, log, b, size)
    {
      if IsActive(active, b) {
        var k :| 0 <= k < |active| && active[k].b == b;
        assert FileOf(disk, b) + active[k].buf == Due(found, log, b, size);
      }
    }
  }

  // ---- One thread's run ----

  predicate ByGid(a: Record, b: Record) {
    a.gid < b.gid || (a.gid == b.gid && (a.cid < b.cid || (a.cid == b.cid && a.pos < b.pos)))
  }

  // A cluster's records in range, sorted by id.
  function SortedRecords(realIds: seq<nat>, offsets: seq<nat>, nbase: nat, c: nat): seq<Record>
    requires c + 1 < |offsets| && Readable(realIds, offsets, c)
  {
    var ids := ClusterIds(realIds, offsets, c);
    Sort(ByGid, ClusterRecords(ids, c, nbase, |ids|))
  }

  ghost predicate Clusters(realIds: seq<nat>, offsets: seq<nat>, nlist: nat) {
    |offsets| == nlist + 1 && AllReadable(realIds, offsets, nlist)
  }

  ghost predicate TakesBelow(cs: seq<nat>, nlist: nat) {
    forall k | 0 <= k < |cs| :: cs[k] < nlist
  }

  // What a thread logs when it takes the clusters cs in turn.
  function ThreadLog(realIds: seq<nat>, offsets: seq<nat>, nlist: nat, nbase: nat, cs: seq<nat>): seq<Record>
    requires Clusters(realIds, offsets, nlist) && TakesBelow(cs, nlist)
  {
    if cs == [] then []
    else
      var n := |cs| - 1;
      ThreadLog(realIds, offsets, nlist, nbase, cs[..n]) + SortedRecords(realIds, offsets, nbase, cs[n])
  }

  function Logged(realIds: seq<nat>, offsets: seq<nat>, nlist: nat, nbase: nat, cs: seq<nat>): nat
    requires Clusters(realIds, offsets, nlist) && TakesBelow(cs, nlist)
  {
    if cs == [] then 0
    else
      var n := |cs| - 1;
      Logged(realIds, offsets, nlist, nbase, cs[..n]) + |ClusterIds(realIds, offsets, cs[n])|
  }

  lemma GidsAscend(s: seq<Record>)
    ensures forall j, k | 0 <= j < k < |Sort(ByGid, s)| :: Sort(ByGid, s)[j].gid <= Sort(ByGid, s)[k].gid
  {
    assert StrictTotal(ByGid);
    SortSorts(ByGid, s);
  }

  method WriteCluster(w: ThreadWriter, ids: seq<nat>, cid: nat, nbase: nat) returns (written: nat, skipped: nat)
    requires w.Valid()
    modifies w
    ensures w.Valid() && w.log == old(w.log) + Sort(ByGid, ClusterRecords(ids, cid, nbase, |ids|))
    ensures |w.log| == |old(w.log)| + written && written + skipped == |ids|
    ensures forall j, k | |old(w.log)| <= j < k < |w.log| :: w.log[j].gid <= w.log[k].gid
  {
    hide BucketOf, Kept, OneEach, Sort;
    var gidPos: seq<Record> := [];
    written, skipped := 0, 0;
    for pos := 0 to |ids|
      invariant gidPos == ClusterRecords(ids, cid, nbase, pos) && |gidPos| + skipped == pos
    {
      if ids[pos] >= nbase {
        skipped := skipped + 1;
      } else {
        gidPos := gidPos + [Record(ids[pos], cid, pos)];
      }
    }
    SortPermutes(ByGid, gidPos);
    var sorted := Sort(ByGid, gidPos);
    GidsAscend(gidPos);
    ghost var before := w.log;
    assert before + sorted[..0] == before;
    for k := 0 to |sorted|
      invariant w.Valid() && w.log == before + sorted[..k] && written == k
    {
      assert sorted[..k + 1] == sorted[..k] + [sorted[k]];
      ghost var at := w.AppendRecord(sorted[k]);
      written := written + 1;
    }
    assert sorted[..|sorted|] == sorted;
  }

  // One thread over the clusters it was given, in the order it took them. Its parts then hold what
  // they held before plus its share of every bucket.
  method RunThread(realIds: seq<nat>, offsets: seq<nat>, nlist: nat, nbase: nat, size: nat, recBytes: nat,
                   cs: seq<nat>, parts: Disk) returns (disk: Disk, written: nat, skipped: nat)
    requires size > 0 && Clusters(realIds, offsets, nlist) && TakesBelow(cs, nlist)
    ensures var log := ThreadLog(realIds, offsets, nlist, nbase, cs);
      && (forall b: nat :: FileOf(disk, b) == Due(parts, log, b, size))
      && written == |log| && written + skipped == Logged(realIds, offsets, nlist, nbase, cs)
  {
    hide BucketOf, Kept, OneEach, Sort, ClusterRecords, ClusterIds, Readable, BucketCount, Due;
    var w := new ThreadWriter(size, BucketCount(nbase, size), recBytes, parts);
    written, skipped := 0, 0;
    for k := 0 to |cs|
      invariant w.Valid() && w.found == parts && w.size == size && fresh(w)
      invariant w.log == ThreadLog(realIds, offsets, nlist, nbase, cs[..k]) && written == |w.log|
      invariant written + skipped == Logged(realIds, offsets, nlist, nbase, cs[..k])
    {
      assert cs[..k + 1][..k] == cs[..k];
      var ids := ClusterIds(realIds, offsets, cs[k]);
      var here, past := WriteCluster(w, ids, cs[k], nbase);
      written, skipped := written + here, skipped + past;
    }
    assert cs[..|cs|] == cs;
    w.FlushAll();
    disk := w.disk;
  }

  // ---- Loading the parts of a bucket ----

  datatype Slot = Empty | Filled(rec: Record)

  // The slots are exactly the records read so far, each at its own id.
  ghost predicate Slotted(read: seq<Record>, g0: nat, slots: seq<Slot>) {
    && (forall k | 0 <= k < |read| :: InSlot(read[k], g0, slots))
    && (forall i | 0 <= i < |slots| && slots[i].Filled? :: slots[i].rec in read && slots[i].rec.gid == g0 + i)
  }

  ghost predicate InSlot(rec: Record, g0: nat, slots: seq<Slot>) {
    g0 <= rec.gid < g0 + |slots| && slots[rec.gid - g0] == Filled(rec)
  }

  datatype PartsResult = Merged(slots: seq<Slot>, seen: nat) | OutOfRange | Duplicate | Missing

  lemma SlotOne(read: seq<Record>, rec: Record, g0: nat, slots: seq<Slot>)
    requires Slotted(read, g0, slots) && DistinctIds(read)
    requires g0 <= rec.gid < g0 + |slots| && slots[rec.gid - g0].Empty?
    ensures Slotted(read + [rec], g0, slots[rec.gid - g0 := Filled(rec)]) && DistinctIds(read + [rec])
  {
    var next, slots' := read + [rec], slots[rec.gid - g0 := Filled(rec)];
    forall k | 0 <= k < |read|
      ensures read[k].gid != rec.gid
    {
      assert InSlot(read[k], g0, slots);
    }
    forall k | 0 <= k < |next|
      ensures InSlot(next[k], g0, slots')
    {
      assert k < |read| ==> next[k] == read[k] && InSlot(read[k], g0, slots);
    }
    assert forall x :: x in next <==> x in read || x == rec;
  }

  lemma SlotTaken(read: seq<Record>, file: seq<Record>, i: nat, all: seq<Record>, g0: nat, slots: seq<Slot>)
    requires i < |file| && read + file <= all && Slotted(read + file[..i], g0, slots)
    requires g0 <= file[i].gid < g0 + |slots| && slots[file[i].gid - g0].Filled?
    ensures !DistinctIds(all)
  {
    var done := read + file[..i];
    var x := slots[file[i].gid - g0].rec;
    var k :| 0 <= k < |done| && done[k] == x;
    assert all[k] == x && all[|read| + i] == file[i];
  }

  // Reads one part into the slots, on top of the parts read before; `all` is what the parts hold.
  method LoadFromFileInto(file: seq<Record>, g0: nat, slots0: seq<Slot>, ghost read: seq<Record>,
                          ghost all: seq<Record>)
    returns (r: PartsResult)
    requires Slotted(read, g0, slots0) && DistinctIds(read) && read + file <= all
    ensures r.Merged? ==>
      |r.slots| == |slots0| && Slotted(read + file, g0, r.slots) && DistinctIds(read + file) && r.seen == |file|
    ensures r.OutOfRange? ==> !WithinRange(all, g0, |slots0|)
    ensures r.Duplicate? ==> !DistinctIds(all)
    ensures !r.Missing?
  {
    hide Slotted, DistinctIds;
    var slots := slots0;
    assert read + file[..0] == read;
    for i := 0 to |file|
      invariant |slots| == |slots0| && Slotted(read + file[..i], g0, slots) && DistinctIds(read + file[..i])
    {
      var rec := file[i];
      if rec.gid < g0 || rec.gid >= g0 + |slots| {
        assert all[|read| + i] == rec;
        return OutOfRange;
      }
      if slots[rec.gid - g0].Filled? {
        SlotTaken(read, file, i, all, g0, slots);
        return Duplicate;
      }
      SlotOne(read + file[..i], rec, g0, slots);
      assert read + file[..i] + [rec] == read + file[..i + 1];
      slots := slots[rec.gid - g0 := Filled(rec)];
    }
    assert file[..|file|] == file;
    r := Merged(slots, |file|);
  }

  function Concat(parts: seq<seq<Record>>): seq<Record> {
    if parts == [] then [] else Concat(parts[..|parts| - 1]) + parts[|parts| - 1]
  }

  lemma {:induction false} ConcatPrefix(parts: seq<seq<Record>>, n: nat)
    requires n <= |parts|
    ensures Concat(parts[..n]) <= Concat(parts)
  {
    if n < |parts| {
      var m := |parts| - 1;
      ConcatPrefix(parts[..m], n);
      assert parts[..m][..n] == parts[..n];
    } else {
      assert parts[..n] == parts;
    }
  }

  // What loading promises: it succeeds exactly when the parts' records are in range, no id occurs
  // twice over all of them and, in strict mode, every slot is filled.
  ghost predicate PartsContract(all: seq<Record>, g0: nat, len: nat, strict: bool, r: PartsResult) {
    && (r.Merged? <==> WithinRange(all, g0, len) && DistinctIds(all) && (strict ==> |all| == len))
    && (r.Merged? ==> |r.slots| == len && Slotted(all, g0, r.slots) && r.seen == |all|)
    && (r.OutOfRange? ==> !WithinRange(all, g0, len)) && (r.Duplicate? ==> !DistinctIds(all))
  }

  datatype File = Absent | Present(records: seq<Record>)

  // A bucket's files: the single file of an older layout, and for every thread a half-precision and
  // a single-precision part.
  datatype BucketFiles = BucketFiles(legacy: File, half: seq<File>, full: seq<File>)

  // A missing part is an empty one.
  function RecordsOf(f: File): seq<Record> {
    if f.Present? then f.records else []
  }

  function Pairs(files: BucketFiles): (r: seq<seq<Record>>)
    requires |files.half| == |files.full|
    ensures |r| == |files.half|
    ensures forall t | 0 <= t < |r| :: r[t] == RecordsOf(files.half[t]) + RecordsOf(files.full[t])
  {
    seq(|files.half|, t requires 0 <= t < |files.half| => RecordsOf(files.half[t]) + RecordsOf(files.full[t]))
  }

  // What a load reads: the single file alone if there is one, otherwise both parts of every thread.
  function Scanned(files: BucketFiles): seq<Record>
    requires |files.half| == |files.full|
  {
    if files.legacy.Present? then files.legacy.records else Concat(Pairs(files))
  }

  method LoadReconBucketAny(files: BucketFiles, g0: nat, len: nat, strict: bool) returns (r: PartsResult)
    requires |files.half| == |files.full|
    ensures len > 0 ==> PartsContract(Scanned(files), g0, len, strict, r)
    ensures len == 0 ==> r == Merged([], 0)
  {
    hide Slotted, DistinctIds, Concat, WithinRange;
    var slots := seq(len, _ => Empty);
    if len == 0 {
      return Merged([], 0);
    }
    ghost var all := Scanned(files);
    NoSlots(g0, slots);
    if files.legacy.Present? {
      assert [] + files.legacy.records == all;
      r := LoadFromFileInto(files.legacy.records, g0, slots, [], all);
      if r.Merged? {
        SlotsInRange(all, g0, r.slots);
        if strict && r.seen != len {
          return Missing;
        }
      }
      return;
    }
    ghost var parts := Pairs(files);
    var seen := 0;
    for t := 0 to |files.half|
      invariant |slots| == len && seen == |Concat(parts[..t])|
      invariant Slotted(Concat(parts[..t]), g0, slots) && DistinctIds(Concat(parts[..t]))
    {
      ghost var read, h, f := Concat(parts[..t]), RecordsOf(files.half[t]), RecordsOf(files.full[t]);
      ConcatNext(parts, t);
      TwoParts(read, h, f, all);
      var one := LoadFromFileInto(RecordsOf(files.half[t]), g0, slots, read, all);
      if !one.Merged? {
        return one;
      }
      var two := LoadFromFileInto(RecordsOf(files.full[t]), g0, one.slots, read + h, all);
      if !two.Merged? {
        return two;
      }
      slots, seen := two.slots, seen + one.seen + two.seen;
    }
    assert parts[..|parts|] == parts;
    SlotsInRange(all, g0, slots);
    if strict && seen != len {
      return Missing;
    }
    r := Merged(slots, seen);
  }

  lemma ConcatNext(parts: seq<seq<Record>>, t: nat)
    requires t < |parts|
    ensures Concat(parts[..t + 1]) == Concat(parts[..t]) + parts[t] && Concat(parts[..t + 1]) <= Concat(parts)
  {
    ConcatPrefix(parts, t + 1);
    assert parts[..t + 1][..t] == parts[..t];
  }

  lemma TwoParts(read: seq<Record>, h: seq<Record>, f: seq<Record>, all: seq<Record>)
    requires read + (h + f) <= all
    ensures read + h <= all && read + h + f <= all && read + h + f == read + (h + f)
  {
    assert read + h + f == read + (h + f);
  }

  lemma NoSlots(g0: nat, slots: seq<Slot>)
    requires forall i | 0 <= i < |slots| :: slots[i].Empty?
    ensures Slotted([], g0, slots) && DistinctIds([]) && Concat([]) == []
  {
  }

  lemma SlotsInRange(all: seq<Record>, g0: nat, slots: seq<Slot>)
    requires Slotted(all, g0, slots)
    ensures WithinRange(all, g0, |slots|)
  {
    forall k | 0 <= k < |all|
      ensures g0 <= all[k].gid < g0 + |slots|
    {
      assert InSlot(all[k], g0, slots);
    }
  }

  // ---- Any schedule ----

  ghost function RecCount(s: seq<Record>, r: Record): nat {
    multiset(s)[r]
  }

  ghost function IdCount(s: seq<nat>, c: nat): nat {
    multiset(s)[c]
  }

  lemma RecAppend(a: seq<Record>, b: seq<Record>, r: Record)
    ensures RecCount(a + b, r) == RecCount(a, r) + RecCount(b, r) && RecCount([], r) == 0
  {
  }

  lemma RecSingle(x: Record, r: Record)
    ensures RecCount([x], r) == (if x == r then 1 else 0) && RecCount([], r) == 0
  {
  }

  lemma IdLast(cs: seq<nat>, c: nat)
    ensures cs != [] ==> IdCount(cs, c) == IdCount(cs[..|cs| - 1], c) + (if cs[|cs| - 1] == c then 1 else 0)
    ensures IdCount([], c) == 0
  {
    if cs != [] {
      assert cs == cs[..|cs| - 1] + [cs[|cs| - 1]];
    }
  }

  lemma {:induction false} ShareCount(log: seq<Record>, b: nat, size: nat, r: Record)
    requires size > 0
    ensures RecCount(BucketOf(log, b, size), r) == if BucketIndex(r.gid, size) == b then RecCount(log, r) else 0
  {
    hide RecCount, BucketIndex;
    RecAppend([], [], r);
    if log != [] {
      var n := |log| - 1;
      ShareCount(log[..n], b, size, r);
      RecSingle(log[n], r);
      RecAppend(log[..n], [log[n]], r);
      RecAppend(BucketOf(log[..n], b, size), [log[n]], r);
      assert log == log[..n] + [log[n]];
    }
  }

  lemma {:induction false} ClusterCount(ids: seq<nat>, cid: nat, nbase: nat, n: nat, r: Record)
    requires n <= |ids|
    ensures RecCount(ClusterRecords(ids, cid, nbase, n), r) ==
      if r.cid == cid && r.pos < n && ids[r.pos] == r.gid && r.gid < nbase then 1 else 0
  {
    hide RecCount;
    RecAppend([], [], r);
    if n > 0 {
      var rec := Record(ids[n - 1], cid, n - 1);
      ClusterCount(ids, cid, nbase, n - 1, r);
      RecSingle(rec, r);
      RecAppend(ClusterRecords(ids, cid, nbase, n - 1), if ids[n - 1] < nbase then [rec] else [], r);
    }
  }

  // The record is a real node with an id in range.
  ghost predicate IsNode(realIds: seq<nat>, offsets: seq<nat>, nlist: nat, nbase: nat, r: Record)
    requires Clusters(realIds, offsets, nlist)
  {
    r.cid < nlist && r.gid < nbase && InCluster(ClusterIds(realIds, offsets, r.cid), r)
  }

  predicate InCluster(ids: seq<nat>, r: Record) {
    r.pos < |ids| && ids[r.pos] == r.gid
  }

  lemma SortedCount(realIds: seq<nat>, offsets: seq<nat>, nlist: nat, nbase: nat, c: nat, r: Record)
    requires Clusters(realIds, offsets, nlist) && c < nlist
    ensures RecCount(SortedRecords(realIds, offsets, nbase, c), r) ==
      if r.cid == c && IsNode(realIds, offsets, nlist, nbase, r) then 1 else 0
  {
    hide ClusterIds, ClusterRecords, Sort;
    var ids := ClusterIds(realIds, offsets, c);
    SortPermutes(ByGid, ClusterRecords(ids, c, nbase, |ids|));
    ClusterCount(ids, c, nbase, |ids|, r);
  }

  // A thread logs each node as often as it takes its cluster.
  lemma {:induction false} ThreadCount(realIds: seq<nat>, offsets: seq<nat>, nlist: nat, nbase: nat, cs: seq<nat>,
                                       r: Record)
    requires Clusters(realIds, offsets, nlist) && TakesBelow(cs, nlist)
    ensures RecCount(ThreadLog(realIds, offsets, nlist, nbase, cs), r) ==
      if IsNode(realIds, offsets, nlist, nbase, r) then IdCount(cs, r.cid) else 0
  {
    hide RecCount, IdCount, SortedRecords, IsNode, Clusters;
    IdLast(cs, r.cid);
    RecAppend([], [], r);
    if cs != [] {
      var n := |cs| - 1;
      ThreadCount(realIds, offsets, nlist, nbase, cs[..n], r);
      SortedCount(realIds, offsets, nlist, nbase, cs[n], r);
      LogStep(realIds, offsets, nlist, nbase, cs);
      RecAppend(ThreadLog(realIds, offsets, nlist, nbase, cs[..n]), SortedRecords(realIds, offsets, nbase, cs[n]), r);
    } else {
      LogStart(realIds, offsets, nlist, nbase);
    }
  }

  lemma LogStart(realIds: seq<nat>, offsets: seq<nat>, nlist: nat, nbase: nat)
    requires Clusters(realIds, offsets, nlist)
    ensures ThreadLog(realIds, offsets, nlist, nbase, []) == []
  {
  }

  lemma LogStep(realIds: seq<nat>, offsets: seq<nat>, nlist: nat, nbase: nat, cs: seq<nat>)
    requires Clusters(realIds, offsets, nlist) && cs != [] && TakesBelow(cs, nlist)
    ensures var n := |cs| - 1;
      && cs[n] + 1 < |offsets| && Readable(realIds, offsets, cs[n])
      && ThreadLog(realIds, offsets, nlist, nbase, cs) ==
         ThreadLog(realIds, offsets, nlist, nbase, cs[..n]) + SortedRecords(realIds, offsets, nbase, cs[n])
  {
    hide SortedRecords, Readable;
  }

  // How many times cluster c is taken, over all threads.
  ghost function Taken(schedule: seq<seq<nat>>, c: nat): nat {
    if schedule == [] then 0
    else Taken(schedule[..|schedule| - 1], c) + IdCount(schedule[|schedule| - 1], c)
  }

  // Every cluster is taken by exactly one thread, once.
  ghost predicate Schedule(schedule: seq<seq<nat>>, nlist: nat) {
    && (forall t | 0 <= t < |schedule| :: TakesBelow(schedule[t], nlist))
    && (forall c: nat | c < nlist :: Taken(schedule, c) == 1)
  }

  // What the threads add for bucket b: each writing thread its share, the others nothing.
  ghost predicate PartsOf(parts: seq<seq<Record>>, realIds: seq<nat>, offsets: seq<nat>, nlist: nat, nbase: nat,
                          size: nat, schedule: seq<seq<nat>>, b: nat)
    requires size > 0 && Clusters(realIds, offsets, nlist)
    requires forall t | 0 <= t < |schedule| :: TakesBelow(schedule[t], nlist)
  {
    && |parts| >= |schedule|
    && (forall t | 0 <= t < |schedule| ::
          parts[t] == BucketOf(ThreadLog(realIds, offsets, nlist, nbase, schedule[t]), b, size))
    && (forall t | |schedule| <= t < |parts| :: parts[t] == [])
  }

  lemma {:induction false} PartsCount(parts: seq<seq<Record>>, realIds: seq<nat>, offsets: seq<nat>, nlist: nat,
                                      nbase: nat, size: nat, schedule: seq<seq<nat>>, b: nat, r: Record, n: nat)
    requires size > 0 && Clusters(realIds, offsets, nlist)
    requires forall t | 0 <= t < |schedule| :: TakesBelow(schedule[t], nlist)
    requires PartsOf(parts, realIds, offsets, nlist, nbase, size, schedule, b) && n <= |schedule|
    ensures RecCount(Concat(parts[..n]), r) ==
      if BucketIndex(r.gid, size) == b && IsNode(realIds, offsets, nlist, nbase, r)
      then Taken(schedule[..n], r.cid) else 0
  {
    hide RecCount, BucketIndex, BucketOf, IsNode, ThreadLog;
    RecAppend([], [], r);
    if n > 0 {
      PartsCount(parts, realIds, offsets, nlist, nbase, size, schedule, b, r, n - 1);
      assert parts[..n][..n - 1] == parts[..n - 1] && schedule[..n][..n - 1] == schedule[..n - 1];
      RecAppend(Concat(parts[..n - 1]), parts[n - 1], r);
      ShareCount(ThreadLog(realIds, offsets, nlist, nbase, schedule[n - 1]), b, size, r);
      ThreadCount(realIds, offsets, nlist, nbase, schedule[n - 1], r);
    }
  }

  lemma {:induction false} ConcatEmpty(parts: seq<seq<Record>>, n: nat)
    requires n <= |parts| && forall t | n <= t < |parts| :: parts[t] == []
    ensures Concat(parts) == Concat(parts[..n])
  {
    if n == |parts| {
      assert parts[..n] == parts;
    } else {
      var m := |parts| - 1;
      ConcatEmpty(parts[..m], n);
      assert parts[..m][..n] == parts[..n];
    }
  }

  // The record belongs in bucket b.
  ghost predicate Wanted(realIds: seq<nat>, offsets: seq<nat>, nlist: nat, nbase: nat, size: nat, b: nat, r: Record)
    requires size > 0 && Clusters(realIds, offsets, nlist)
  {
    BucketIndex(r.gid, size) == b && IsNode(realIds, offsets, nlist, nbase, r)
  }

  // Whatever the schedule, the shares hold every record of the bucket once and nothing else.
  lemma PartsExact(parts: seq<seq<Record>>, realIds: seq<nat>, offsets: seq<nat>, nlist: nat, nbase: nat,
                   size: nat, schedule: seq<seq<nat>>, b: nat, r: Record)
    requires size > 0 && Clusters(realIds, offsets, nlist) && Schedule(schedule, nlist)
    requires PartsOf(parts, realIds, offsets, nlist, nbase, size, schedule, b)
    ensures RecCount(Concat(parts), r) == if Wanted(realIds, offsets, nlist, nbase, size, b, r) then 1 else 0
  {
    hide RecCount, BucketIndex, InCluster, ClusterIds;
    var n := |schedule|;
    PartsCount(parts, realIds, offsets, nlist, nbase, size, schedule, b, r, n);
    ConcatEmpty(parts, n);
    assert schedule[..n] == schedule;
  }

  // The clusters follow each other in the id table.
  ghost predicate Rising(offsets: seq<nat>) {
    forall j | 0 <= j < |offsets| - 1 :: offsets[j] <= offsets[j + 1]
  }

  lemma {:induction false} OffsetsGrow(offsets: seq<nat>, i: nat, j: nat)
    requires Rising(offsets) && i <= j < |offsets|
    ensures offsets[i] <= offsets[j]
    decreases j
  {
    if i < j {
      OffsetsGrow(offsets, i, j - 1);
    }
  }

  // Where in the table a node is.
  lemma NodeAt(realIds: seq<nat>, offsets: seq<nat>, nlist: nat, nbase: nat, r: Record)
    requires Clusters(realIds, offsets, nlist) && Rising(offsets) && IsNode(realIds, offsets, nlist, nbase, r)
    ensures |offsets| == nlist + 1 && r.cid < nlist
    ensures offsets[r.cid] + r.pos < offsets[r.cid + 1] && offsets[r.cid] + r.pos < |realIds|
    ensures realIds[offsets[r.cid] + r.pos] == r.gid
  {
    assert Readable(realIds, offsets, r.cid);
  }

  lemma SameEntry(ids: seq<nat>, i: nat, j: nat)
    requires Distinct(ids) && i < |ids| && j < |ids| && ids[i] == ids[j]
    ensures i == j
  {
  }

  // With distinct ids a node is known by its id.
  lemma NodeById(realIds: seq<nat>, offsets: seq<nat>, nlist: nat, nbase: nat, r: Record, s: Record)
    requires Clusters(realIds, offsets, nlist) && Rising(offsets) && Distinct(realIds)
    requires IsNode(realIds, offsets, nlist, nbase, r) && IsNode(realIds, offsets, nlist, nbase, s) && r.gid == s.gid
    ensures r == s
  {
    hide *;
    NodeAt(realIds, offsets, nlist, nbase, r);
    NodeAt(realIds, offsets, nlist, nbase, s);
    var i, j := offsets[r.cid] + r.pos, offsets[s.cid] + s.pos;
    SameEntry(realIds, i, j);
    if r.cid < s.cid {
      OffsetsGrow(offsets, r.cid + 1, s.cid);
    } else if s.cid < r.cid {
      OffsetsGrow(offsets, s.cid + 1, r.cid);
    }
  }

  lemma CountTwice(s: seq<Record>, j: nat, k: nat)
    requires j < k < |s| && s[j] == s[k]
    ensures RecCount(s, s[j]) >= 2
  {
    assert s == s[..k] + s[k..] && s[..k][j] in s[..k] && s[k..][0] in s[k..];
    assert multiset(s) == multiset(s[..k]) + multiset(s[k..]);
  }

  lemma CountMember(s: seq<Record>, r: Record)
    ensures r in s <==> RecCount(s, r) > 0
  {
    assert r in s <==> r in multiset(s);
  }

  ghost predicate ExactlyOnce(all: seq<Record>, realIds: seq<nat>, offsets: seq<nat>, nlist: nat, nbase: nat,
                              size: nat, b: nat)
    requires size > 0 && Clusters(realIds, offsets, nlist)
  {
    forall r :: RecCount(all, r) == if Wanted(realIds, offsets, nlist, nbase, size, b, r) then 1 else 0
  }

  lemma OnceDistinct(all: seq<Record>, realIds: seq<nat>, offsets: seq<nat>, nlist: nat, nbase: nat, size: nat, b: nat)
    requires size > 0 && Clusters(realIds, offsets, nlist) && Rising(offsets) && Distinct(realIds)
    requires ExactlyOnce(all, realIds, offsets, nlist, nbase, size, b)
    ensures DistinctIds(all)
  {
    hide RecCount, IsNode, BucketIndex;
    forall j, k | 0 <= j < k < |all|
      ensures all[j].gid != all[k].gid
    {
      CountMember(all, all[j]);
      CountMember(all, all[k]);
      if all[j].gid == all[k].gid {
        NodeById(realIds, offsets, nlist, nbase, all[j], all[k]);
        CountTwice(all, j, k);
      }
    }
  }

  lemma OnceInSpan(all: seq<Record>, realIds: seq<nat>, offsets: seq<nat>, nlist: nat, nbase: nat, size: nat, b: nat,
                   len: nat)
    requires size > 0 && Clusters(realIds, offsets, nlist) && len == BucketLen(b, nbase, size)
    requires ExactlyOnce(all, realIds, offsets, nlist, nbase, size, b)
    ensures WithinRange(all, b * size, len)
  {
    hide RecCount, BucketIndex, InCluster, ClusterIds, BucketLen;
    forall k | 0 <= k < |all|
      ensures b * size <= all[k].gid < b * size + len
    {
      CountMember(all, all[k]);
      assert Wanted(realIds, offsets, nlist, nbase, size, b, all[k]);
      SpanHolds(all[k].gid, b, nbase, size);
    }
  }

  // The slots hold exactly the bucket's nodes, each at its id.
  ghost predicate SlotsExact(slots: seq<Slot>, realIds: seq<nat>, offsets: seq<nat>, nlist: nat, nbase: nat,
                             size: nat, b: nat)
    requires size > 0 && Clusters(realIds, offsets, nlist)
  {
    forall i, r | 0 <= i < |slots| ::
      slots[i] == Filled(r) <==> Wanted(realIds, offsets, nlist, nbase, size, b, r) && r.gid == b * size + i
  }

  lemma SlottedExact(all: seq<Record>, slots: seq<Slot>, realIds: seq<nat>, offsets: seq<nat>, nlist: nat, nbase: nat,
                     size: nat, b: nat)
    requires size > 0 && Clusters(realIds, offsets, nlist) && ExactlyOnce(all, realIds, offsets, nlist, nbase, size, b)
    requires Slotted(all, b * size, slots)
    ensures SlotsExact(slots, realIds, offsets, nlist, nbase, size, b)
  {
    hide RecCount, Wanted, Clusters;
    forall i, r | 0 <= i < |slots|
      ensures slots[i] == Filled(r) <==> Wanted(realIds, offsets, nlist, nbase, size, b, r) && r.gid == b * size + i
    {
      CountMember(all, r);
      assert RecCount(all, r) == if Wanted(realIds, offsets, nlist, nbase, size, b, r) then 1 else 0;
      if r in all {
        var k :| 0 <= k < |all| && all[k] == r;
        assert InSlot(all[k], b * size, slots);
      }
    }
  }

  lemma {:induction false} DistinctCount(s: seq<Record>, r: Record)
    requires DistinctIds(s)
    ensures RecCount(s, r) <= 1
  {
    hide RecCount;
    RecSingle(r, r);
    if s != [] {
      var n := |s| - 1;
      DistinctCount(s[..n], r);
      RecAppend(s[..n], [s[n]], r);
      RecSingle(s[n], r);
      CountMember(s[..n], r);
      assert s == s[..n] + [s[n]];
    }
  }

  // Slots that are right were read from records that are right.
  lemma ExactSlotsOnce(all: seq<Record>, slots: seq<Slot>, realIds: seq<nat>, offsets: seq<nat>, nlist: nat,
                       nbase: nat, size: nat, b: nat)
    requires size > 0 && Clusters(realIds, offsets, nlist) && SlotsExact(slots, realIds, offsets, nlist, nbase, size, b)
    requires Slotted(all, b * size, slots) && DistinctIds(all) && |slots| == BucketLen(b, nbase, size)
    ensures ExactlyOnce(all, realIds, offsets, nlist, nbase, size, b)
  {
    hide RecCount, IsNode, Clusters, BucketIndex, BucketLen, DistinctIds;
    forall r
      ensures RecCount(all, r) == if Wanted(realIds, offsets, nlist, nbase, size, b, r) then 1 else 0
    {
      CountMember(all, r);
      DistinctCount(all, r);
      if r in all {
        var k :| 0 <= k < |all| && all[k] == r;
        assert InSlot(all[k], b * size, slots);
      }
      if Wanted(realIds, offsets, nlist, nbase, size, b, r) {
        NodeInBase(realIds, offsets, nlist, nbase, r);
        SpanHolds(r.gid, b, nbase, size);
        assert slots[r.gid - b * size] == Filled(r);
      }
    }
  }

  lemma NodeInBase(realIds: seq<nat>, offsets: seq<nat>, nlist: nat, nbase: nat, r: Record)
    requires Clusters(realIds, offsets, nlist) && IsNode(realIds, offsets, nlist, nbase, r)
    ensures r.gid < nbase
  {
  }

  // The load gave each slot of the bucket its node, and no slot anything else.
  ghost predicate Right(r: PartsResult, realIds: seq<nat>, offsets: seq<nat>, nlist: nat, nbase: nat, size: nat, b: nat)
    requires size > 0 && Clusters(realIds, offsets, nlist)
  {
    r.Merged? && |r.slots| == BucketLen(b, nbase, size) && SlotsExact(r.slots, realIds, offsets, nlist, nbase, size, b)
  }

  // Every id the bucket covers is some node's.
  ghost predicate Covered(realIds: seq<nat>, offsets: seq<nat>, nlist: nat, nbase: nat, size: nat, b: nat)
    requires size > 0 && Clusters(realIds, offsets, nlist)
  {
    forall gid: nat | InSpan(gid, b, nbase, size) :: IsNodeId(realIds, offsets, nlist, nbase, size, b, gid)
  }

  ghost predicate IsNodeId(realIds: seq<nat>, offsets: seq<nat>, nlist: nat, nbase: nat, size: nat, b: nat, gid: nat)
    requires size > 0 && Clusters(realIds, offsets, nlist)
  {
    exists r: Record :: Wanted(realIds, offsets, nlist, nbase, size, b, r) && r.gid == gid
  }

  lemma OnceCovered(all: seq<Record>, realIds: seq<nat>, offsets: seq<nat>, nlist: nat, nbase: nat, size: nat, b: nat,
                    len: nat)
    requires size > 0 && Clusters(realIds, offsets, nlist) && len == BucketLen(b, nbase, size)
    requires ExactlyOnce(all, realIds, offsets, nlist, nbase, size, b)
    requires WithinRange(all, b * size, len) && DistinctIds(all)
    ensures |all| == len <==> Covered(realIds, offsets, nlist, nbase, size, b)
  {
    hide RecCount, Wanted, Clusters, BucketLen, WithinRange, DistinctIds;
    FillsSpan(all, b * size, len);
    forall gid: nat
      ensures HasId(all, gid) <==> IsNodeId(realIds, offsets, nlist, nbase, size, b, gid)
    {
      OnceIds(all, realIds, offsets, nlist, nbase, size, b, gid);
    }
  }

  lemma OnceIds(all: seq<Record>, realIds: seq<nat>, offsets: seq<nat>, nlist: nat, nbase: nat, size: nat, b: nat,
                gid: nat)
    requires size > 0 && Clusters(realIds, offsets, nlist)
    requires ExactlyOnce(all, realIds, offsets, nlist, nbase, size, b)
    ensures HasId(all, gid) <==> IsNodeId(realIds, offsets, nlist, nbase, size, b, gid)
  {
    hide RecCount, Wanted, Clusters;
    if HasId(all, gid) {
      var k :| 0 <= k < |all| && all[k].gid == gid;
      CountMember(all, all[k]);
    }
    if IsNodeId(realIds, offsets, nlist, nbase, size, b, gid) {
      var r :| Wanted(realIds, offsets, nlist, nbase, size, b, r) && r.gid == gid;
      CountMember(all, r);
    }
  }

  // Whatever was read, the result is right exactly when every record of the bucket was read once and
  // nothing else and, in strict mode, every id is covered.
  lemma RightIffOnce(all: seq<Record>, realIds: seq<nat>, offsets: seq<nat>, nlist: nat, nbase: nat, size: nat, b: nat,
                     strict: bool, r: PartsResult)
    requires size > 0 && Clusters(realIds, offsets, nlist) && Rising(offsets) && Distinct(realIds)
    requires BucketLen(b, nbase, size) >= 0 && PartsContract(all, b * size, BucketLen(b, nbase, size), strict, r)
    ensures Right(r, realIds, offsets, nlist, nbase, size, b) <==>
      && ExactlyOnce(all, realIds, offsets, nlist, nbase, size, b)
      && (strict ==> Covered(realIds, offsets, nlist, nbase, size, b))
  {
    hide RecCount, Wanted, BucketLen, WithinRange, DistinctIds, Slotted, SlotsExact, Distinct, Rising,
      AllReadable, ExactlyOnce, Covered;
    var len := BucketLen(b, nbase, size);
    if ExactlyOnce(all, realIds, offsets, nlist, nbase, size, b) {
      OnceDistinct(all, realIds, offsets, nlist, nbase, size, b);
      OnceInSpan(all, realIds, offsets, nlist, nbase, size, b, len);
      OnceCovered(all, realIds, offsets, nlist, nbase, size, b, len);
      if r.Merged? {
        SlottedExact(all, r.slots, realIds, offsets, nlist, nbase, size, b);
      }
    } else if Right(r, realIds, offsets, nlist, nbase, size, b) {
      ExactSlotsOnce(all, r.slots, realIds, offsets, nlist, nbase, size, b);
    }
  }

  // ---- Files found and files left ----

  // The bucket's files once the threads have run: parts are appended to, everything else is as found.
  ghost predicate FilesAfter(files: BucketFiles, found: BucketFiles, shares: seq<seq<Record>>) {
    && |files.half| == |files.full| == |found.half| == |found.full| == |shares|
    && files.legacy == found.legacy && files.full == found.full
    && forall t | 0 <= t < |shares| :: RecordsOf(files.half[t]) == RecordsOf(found.half[t]) + shares[t]
  }

  // A load reads what was found and, besides, what the threads added.
  lemma {:induction false} ReadCount(files: BucketFiles, found: BucketFiles, shares: seq<seq<Record>>, n: nat,
                                     r: Record)
    requires FilesAfter(files, found, shares) && n <= |shares|
    ensures RecCount(Concat(Pairs(files)[..n]), r) ==
      RecCount(Concat(Pairs(found)[..n]), r) + RecCount(Concat(shares[..n]), r)
  {
    hide RecCount, Concat, RecordsOf;
    if n == 0 {
      assert Pairs(files)[..0] == [] && Pairs(found)[..0] == [] && shares[..0] == [];
      ConcatNone();
      RecAppend([], [], r);
    } else {
      ReadCount(files, found, shares, n - 1, r);
      ConcatNext(Pairs(files), n - 1);
      ConcatNext(Pairs(found), n - 1);
      ConcatNext(shares, n - 1);
      var h, s, f := RecordsOf(found.half[n - 1]), shares[n - 1], RecordsOf(found.full[n - 1]);
      PartCount(h, s, f, r);
      RecAppend(Concat(Pairs(files)[..n - 1]), h + s + f, r);
      RecAppend(Concat(Pairs(found)[..n - 1]), h + f, r);
      RecAppend(Concat(shares[..n - 1]), s, r);
    }
  }

  lemma ConcatNone()
    ensures Concat([]) == []
  {
  }

  lemma PartCount(h: seq<Record>, s: seq<Record>, f: seq<Record>, r: Record)
    ensures RecCount(h + s + f, r) == RecCount(h + f, r) + RecCount(s, r)
  {
    RecAppend(h + s, f, r);
    RecAppend(h, s, r);
    RecAppend(h, f, r);
  }

  lemma AllRead(files: BucketFiles, found: BucketFiles, shares: seq<seq<Record>>, r: Record)
    requires FilesAfter(files, found, shares) && files.legacy.Absent?
    ensures RecCount(Scanned(files), r) == RecCount(Scanned(found), r) + RecCount(Concat(shares), r)
  {
    hide RecCount, Concat;
    var n := |shares|;
    ReadCount(files, found, shares, n, r);
    assert Pairs(files)[..n] == Pairs(files) && Pairs(found)[..n] == Pairs(found) && shares[..n] == shares;
  }

  // Nothing found in the directory can spoil the load: no part held records, or there is a single
  // file, which alone is read, and it happens to hold exactly the bucket.
  ghost predicate CleanFiles(found: BucketFiles, realIds: seq<nat>, offsets: seq<nat>, nlist: nat, nbase: nat,
                             size: nat, b: nat)
    requires size > 0 && Clusters(realIds, offsets, nlist) && |found.half| == |found.full|
  {
    if found.legacy.Present? then ExactlyOnce(found.legacy.records, realIds, offsets, nlist, nbase, size, b)
    else Scanned(found) == []
  }

  lemma OnceIffClean(files: BucketFiles, found: BucketFiles, shares: seq<seq<Record>>, realIds: seq<nat>,
                     offsets: seq<nat>, nlist: nat, nbase: nat, size: nat, schedule: seq<seq<nat>>, b: nat)
    requires size > 0 && Clusters(realIds, offsets, nlist) && Schedule(schedule, nlist)
    requires PartsOf(shares, realIds, offsets, nlist, nbase, size, schedule, b) && FilesAfter(files, found, shares)
    ensures ExactlyOnce(Scanned(files), realIds, offsets, nlist, nbase, size, b)
       <==> CleanFiles(found, realIds, offsets, nlist, nbase, size, b)
  {
    hide RecCount, Wanted, Schedule, PartsOf, Concat, Clusters;
    if files.legacy.Absent? {
      hide Scanned, FilesAfter;
      forall r
        ensures RecCount(Scanned(files), r) ==
          RecCount(Scanned(found), r) + (if Wanted(realIds, offsets, nlist, nbase, size, b, r) then 1 else 0)
      {
        AllRead(files, found, shares, r);
        PartsExact(shares, realIds, offsets, nlist, nbase, size, schedule, b, r);
      }
      SameLegacy(files, found, shares);
      var stale := Scanned(found);
      if stale != [] {
        CountMember(stale, stale[0]);
        var wanted := Wanted(realIds, offsets, nlist, nbase, size, b, stale[0]);
        assert RecCount(Scanned(files), stale[0]) > if wanted then 1 else 0;
      } else {
        forall r
          ensures RecCount(stale, r) == 0
        {
          RecAppend([], [], r);
        }
      }
    }
  }

  lemma SameLegacy(files: BucketFiles, found: BucketFiles, shares: seq<seq<Record>>)
    requires FilesAfter(files, found, shares)
    ensures files.legacy == found.legacy && |found.half| == |found.full|
  {
  }

  // ---- All threads ----

  // All files of the directory; every thread has its own part of every bucket.
  datatype Directory = Directory(legacy: Disk, half: seq<Disk>, full: seq<Disk>)

  function FileIn(disk: Disk, b: nat): File {
    if b in disk then Present(disk[b]) else Absent
  }

  function FilesOf(parts: seq<Disk>, b: nat): (r: seq<File>)
    ensures |r| == |parts| && forall t | 0 <= t < |parts| :: r[t] == FileIn(parts[t], b)
  {
    seq(|parts|, t requires 0 <= t < |parts| => FileIn(parts[t], b))
  }

  function BucketIn(dir: Directory, b: nat): (r: BucketFiles)
    ensures |r.half| == |dir.half| && |r.full| == |dir.full|
  {
    BucketFiles(FileIn(dir.legacy, b), FilesOf(dir.half, b), FilesOf(dir.full, b))
  }

  // What thread t adds to bucket b; threads without clusters add nothing.
  function Share(realIds: seq<nat>, offsets: seq<nat>, nlist: nat, nbase: nat, size: nat, schedule: seq<seq<nat>>,
                 t: nat, b: nat): seq<Record>
    requires size > 0 && Clusters(realIds, offsets, nlist)
    requires forall u | 0 <= u < |schedule| :: TakesBelow(schedule[u], nlist)
  {
    if t < |schedule| then BucketOf(ThreadLog(realIds, offsets, nlist, nbase, schedule[t]), b, size) else []
  }

  function Shares(realIds: seq<nat>, offsets: seq<nat>, nlist: nat, nbase: nat, size: nat, schedule: seq<seq<nat>>,
                  n: nat, b: nat): (r: seq<seq<Record>>)
    requires size > 0 && Clusters(realIds, offsets, nlist)
    requires forall u | 0 <= u < |schedule| :: TakesBelow(schedule[u], nlist)
    ensures |r| == n && forall t | 0 <= t < n :: r[t] == Share(realIds, offsets, nlist, nbase, size, schedule, t, b)
  {
    seq(n, t requires 0 <= t < n => Share(realIds, offsets, nlist, nbase, size, schedule, t, b))
  }

  // A thread's parts hold what was found and its share.
  ghost predicate Appended(disk: Disk, found: Disk, realIds: seq<nat>, offsets: seq<nat>, nlist: nat, nbase: nat,
                           size: nat, schedule: seq<seq<nat>>, t: nat)
    requires size > 0 && Clusters(realIds, offsets, nlist)
    requires forall u | 0 <= u < |schedule| :: TakesBelow(schedule[u], nlist)
  {
    forall b: nat ::
      FileOf(disk, b) == FileOf(found, b) + Share(realIds, offsets, nlist, nbase, size, schedule, t, b)
  }

  function Product(a: nat, b: nat): nat {
    a * b
  }

  lemma ProductLaws(a: nat, b: nat, k: nat)
    ensures Product(a + b, k) == Product(a, k) + Product(b, k) && Product(0, k) == 0 && Product(1, k) == k
  {
    assert (a + b) * k == a * k + b * k;
  }

  // Sum over the clusters of count(c) times the entries of c.
  ghost function Entries(realIds: seq<nat>, offsets: seq<nat>, nlist: nat, n: nat, count: nat -> nat): nat
    requires Clusters(realIds, offsets, nlist) && n <= nlist
  {
    if n == 0 then 0
    else Entries(realIds, offsets, nlist, n - 1, count) + Product(count(n - 1), |ClusterIds(realIds, offsets, n - 1)|)
  }

  lemma {:induction false} EntriesAdd(realIds: seq<nat>, offsets: seq<nat>, nlist: nat, n: nat, f: nat -> nat,
                                      g: nat -> nat, h: nat -> nat)
    requires Clusters(realIds, offsets, nlist) && n <= nlist && forall c: nat | c < n :: h(c) == f(c) + g(c)
    ensures Entries(realIds, offsets, nlist, n, h) ==
      Entries(realIds, offsets, nlist, n, f) + Entries(realIds, offsets, nlist, n, g)
  {
    hide Product, ClusterIds;
    if n > 0 {
      EntriesAdd(realIds, offsets, nlist, n - 1, f, g, h);
      ProductLaws(f(n - 1), g(n - 1), |ClusterIds(realIds, offsets, n - 1)|);
    }
  }

  lemma {:induction false} EntriesOne(realIds: seq<nat>, offsets: seq<nat>, nlist: nat, n: nat, c: nat, f: nat -> nat)
    requires Clusters(realIds, offsets, nlist) && n <= nlist && forall u: nat | u < n :: f(u) == if u == c then 1 else 0
    ensures Entries(realIds, offsets, nlist, n, f) == if c < n then |ClusterIds(realIds, offsets, c)| else 0
  {
    hide Product, ClusterIds;
    if n > 0 {
      EntriesOne(realIds, offsets, nlist, n - 1, c, f);
      ProductLaws(0, 0, |ClusterIds(realIds, offsets, n - 1)|);
    }
  }

  lemma {:induction false} LoggedEntries(realIds: seq<nat>, offsets: seq<nat>, nlist: nat, nbase: nat, cs: seq<nat>)
    requires Clusters(realIds, offsets, nlist) && TakesBelow(cs, nlist)
    ensures Logged(realIds, offsets, nlist, nbase, cs) == Entries(realIds, offsets, nlist, nlist, c => IdCount(cs, c))
  {
    var count := (c: nat) => IdCount(cs, c);
    if cs == [] {
      EntriesOne(realIds, offsets, nlist, nlist, nlist, count);
    } else {
      var n := |cs| - 1;
      LoggedEntries(realIds, offsets, nlist, nbase, cs[..n]);
      var before, last := (c: nat) => IdCount(cs[..n], c), (c: nat) => if c == cs[n] then 1 else 0;
      EntriesOne(realIds, offsets, nlist, nlist, cs[n], last);
      forall c: nat
        ensures count(c) == before(c) + last(c)
      {
        IdLast(cs, c);
      }
      EntriesAdd(realIds, offsets, nlist, nlist, before, last, count);
    }
  }

  // One more thread's clusters.
  lemma TakenMore(realIds: seq<nat>, offsets: seq<nat>, nlist: nat, nbase: nat, schedule: seq<seq<nat>>, t: nat)
    requires Clusters(realIds, offsets, nlist) && t < |schedule| && TakesBelow(schedule[t], nlist)
    ensures Entries(realIds, offsets, nlist, nlist, c => Taken(schedule[..t + 1], c)) ==
      Entries(realIds, offsets, nlist, nlist, c => Taken(schedule[..t], c))
        + Logged(realIds, offsets, nlist, nbase, schedule[t])
  {
    LoggedEntries(realIds, offsets, nlist, nbase, schedule[t]);
    assert schedule[..t + 1][..t] == schedule[..t];
    EntriesAdd(realIds, offsets, nlist, nlist, c => Taken(schedule[..t], c), c => IdCount(schedule[t], c),
               c => Taken(schedule[..t + 1], c));
  }

  lemma NoneTaken(realIds: seq<nat>, offsets: seq<nat>, nlist: nat, schedule: seq<seq<nat>>)
    requires Clusters(realIds, offsets, nlist) && schedule == []
    ensures Entries(realIds, offsets, nlist, nlist, c => Taken(schedule, c)) == 0
  {
    EntriesOne(realIds, offsets, nlist, nlist, nlist, c => Taken(schedule, c));
  }

  lemma {:induction false} EntriesSame(realIds: seq<nat>, offsets: seq<nat>, nlist: nat, n: nat, f: nat -> nat,
                                       g: nat -> nat)
    requires Clusters(realIds, offsets, nlist) && n <= nlist && forall c: nat | c < n :: f(c) == g(c)
    ensures Entries(realIds, offsets, nlist, n, f) == Entries(realIds, offsets, nlist, n, g)
  {
    hide Product, ClusterIds;
    if n > 0 {
      EntriesSame(realIds, offsets, nlist, n - 1, f, g);
    }
  }

  // The threads run over their clusters, each on its own parts. Whatever the schedule, every file is
  // as found with its thread's share appended, and every entry of every cluster is written or skipped.
  method BuildReconBuckets(realIds: seq<nat>, offsets: seq<nat>, nlist: nat, nbase: nat, size: nat, recBytes: nat,
                           schedule: seq<seq<nat>>, found: Directory)
    returns (dir: Directory, written: nat, skipped: nat)
    requires size > 0 && Clusters(realIds, offsets, nlist) && Schedule(schedule, nlist)
    requires |schedule| <= |found.half| == |found.full|
    ensures |dir.half| == |dir.full| == |found.half|
    ensures forall b: nat ::
      var shares := Shares(realIds, offsets, nlist, nbase, size, schedule, |found.half|, b);
      && PartsOf(shares, realIds, offsets, nlist, nbase, size, schedule, b)
      && FilesAfter(BucketIn(dir, b), BucketIn(found, b), shares)
    ensures written + skipped == Entries(realIds, offsets, nlist, nlist, _ => 1)
  {
    hide Due, ThreadLog, Logged, BucketOf, Entries, Appended, FilesAfter, PartsOf, Shares, FileOf, Taken;
    var half := found.half;
    written, skipped := 0, 0;
    NoneTaken(realIds, offsets, nlist, schedule[..0]);
    for t := 0 to |schedule|
      invariant |half| == |found.half| && forall u | t <= u < |half| :: half[u] == found.half[u]
      invariant forall u | 0 <= u < t ::
        Appended(half[u], found.half[u], realIds, offsets, nlist, nbase, size, schedule, u)
      invariant written + skipped == Entries(realIds, offsets, nlist, nlist, c => Taken(schedule[..t], c))
    {
      var disk, here, past := RunThread(realIds, offsets, nlist, nbase, size, recBytes, schedule[t], half[t]);
      TakenMore(realIds, offsets, nlist, nbase, schedule, t);
      OwnShare(realIds, offsets, nlist, nbase, size, schedule, t, disk, half[t]);
      half := half[t := disk];
      written, skipped := written + here, skipped + past;
    }
    assert schedule[..|schedule|] == schedule;
    EntriesSame(realIds, offsets, nlist, nlist, c => Taken(schedule[..|schedule|], c), _ => 1);
    dir := found.(half := half);
    forall b: nat
      ensures var shares := Shares(realIds, offsets, nlist, nbase, size, schedule, |found.half|, b);
        && PartsOf(shares, realIds, offsets, nlist, nbase, size, schedule, b)
        && FilesAfter(BucketIn(dir, b), BucketIn(found, b), shares)
    {
      ThreadsAppend(realIds, offsets, nlist, nbase, size, schedule, found, half, b);
    }
  }

  lemma OwnShare(realIds: seq<nat>, offsets: seq<nat>, nlist: nat, nbase: nat, size: nat, schedule: seq<seq<nat>>,
                 t: nat, disk: Disk, parts: Disk)
    requires size > 0 && Clusters(realIds, offsets, nlist) && t < |schedule|
    requires forall u | 0 <= u < |schedule| :: TakesBelow(schedule[u], nlist)
    requires var log := ThreadLog(realIds, offsets, nlist, nbase, schedule[t]);
      forall b: nat :: FileOf(disk, b) == Due(parts, log, b, size)
    ensures Appended(disk, parts, realIds, offsets, nlist, nbase, size, schedule, t)
  {
    hide ThreadLog, BucketOf, FileOf, Clusters, TakesBelow;
  }

  lemma ThreadsAppend(realIds: seq<nat>, offsets: seq<nat>, nlist: nat, nbase: nat, size: nat,
                      schedule: seq<seq<nat>>, found: Directory, half: seq<Disk>, b: nat)
    requires size > 0 && Clusters(realIds, offsets, nlist) && Schedule(schedule, nlist)
    requires |schedule| <= |half| == |found.half| == |found.full|
    requires forall u | |schedule| <= u < |half| :: half[u] == found.half[u]
    requires forall u | 0 <= u < |schedule| ::
      Appended(half[u], found.half[u], realIds, offsets, nlist, nbase, size, schedule, u)
    ensures var shares := Shares(realIds, offsets, nlist, nbase, size, schedule, |found.half|, b);
      && PartsOf(shares, realIds, offsets, nlist, nbase, size, schedule, b)
      && FilesAfter(BucketIn(found.(half := half), b), BucketIn(found, b), shares)
  {
    hide ThreadLog, BucketOf;
  }

  // The bucket is loaded from its files, over the ids it covers.
  ghost predicate LoadedFiles(files: BucketFiles, b: nat, nbase: nat, size: nat, strict: bool, r: PartsResult) {
    var len := BucketLen(b, nbase, size);
    |files.half| == |files.full| && len >= 0 && PartsContract(Scanned(files), b * size, len, strict, r)
  }

  // For distinct ids and any schedule of the clusters on the threads, the merged load fills exactly
  // the slots of the bucket's nodes if and only if nothing found in the directory spoils it and, in
  // strict mode, every id of the bucket is some node's.
  lemma ScheduleRoundTrip(files: BucketFiles, found: BucketFiles, shares: seq<seq<Record>>, realIds: seq<nat>,
                          offsets: seq<nat>, nlist: nat, nbase: nat, size: nat, schedule: seq<seq<nat>>, b: nat,
                          strict: bool, r: PartsResult)
    requires size > 0 && Clusters(realIds, offsets, nlist) && Rising(offsets) && Distinct(realIds)
    requires Schedule(schedule, nlist)
    requires PartsOf(shares, realIds, offsets, nlist, nbase, size, schedule, b)
    requires FilesAfter(files, found, shares) && LoadedFiles(files, b, nbase, size, strict, r)
    ensures Right(r, realIds, offsets, nlist, nbase, size, b) <==>
      && CleanFiles(found, realIds, offsets, nlist, nbase, size, b)
      && (strict ==> Covered(realIds, offsets, nlist, nbase, size, b))
  {
    hide Wanted, Schedule, PartsOf, PartsContract, BucketLen, Scanned, Distinct, Rising, Right, CleanFiles, Covered,
      ExactlyOnce;
    OnceIffClean(files, found, shares, realIds, offsets, nlist, nbase, size, schedule, b);
    RightIffOnce(Scanned(files), realIds, offsets, nlist, nbase, size, b, strict, r);
  }

  // Building on any schedule and loading one bucket, end to end.
  method BuildThenLoad(realIds: seq<nat>, offsets: seq<nat>, nlist: nat, nbase: nat, size: nat, recBytes: nat,
                       schedule: seq<seq<nat>>, found: Directory, b: nat, strict: bool)
    returns (r: PartsResult)
    requires size > 0 && Clusters(realIds, offsets, nlist) && Rising(offsets) && Distinct(realIds)
    requires Schedule(schedule, nlist) && |schedule| <= |found.half| == |found.full|
    requires b < BucketCount(nbase, size)
    ensures Right(r, realIds, offsets, nlist, nbase, size, b) <==>
      && CleanFiles(BucketIn(found, b), realIds, offsets, nlist, nbase, size, b)
      && (strict ==> Covered(realIds, offsets, nlist, nbase, size, b))
  {
    hide PartsOf, FilesAfter, PartsContract, Scanned, Distinct, Rising, Right, CleanFiles, Covered, Entries,
      BucketCount, Shares, Taken, TakesBelow;
    var dir, written, skipped :=
      BuildReconBuckets(realIds, offsets, nlist, nbase, size, recBytes, schedule, found);
    SpanPositive(b, nbase, size);
    r := LoadReconBucketAny(BucketIn(dir, b), b * size, BucketLen(b, nbase, size), strict);
    ghost var shares := Shares(realIds, offsets, nlist, nbase, size, schedule, |found.half|, b);
    ScheduleRoundTrip(BucketIn(dir, b), BucketIn(found, b), shares, realIds, offsets, nlist, nbase, size, schedule, b,
                      strict, r);
  }

  // ---- The schedule does not matter ----

  lemma SameRecords(a: seq<Record>, b: seq<Record>)
    requires forall r :: RecCount(a, r) == RecCount(b, r)
    ensures forall r :: r in a <==> r in b
    ensures |a| == |b|
  {
    forall r
      ensures multiset(a)[r] == multiset(b)[r]
    {
      assert RecCount(a, r) == RecCount(b, r);
    }
    assert multiset(a) == multiset(b);
    assert |a| == |multiset(a)| && |b| == |multiset(b)|;
    forall r
      ensures r in a <==> r in b
    {
      assert r in a <==> r in multiset(a);
      assert r in b <==> r in multiset(b);
    }
  }

  lemma SameDistinct(a: seq<Record>, b: seq<Record>)
    requires (forall r :: RecCount(a, r) == RecCount(b, r)) && DistinctIds(a)
    ensures DistinctIds(b)
  {
    SameRecords(a, b);
    hide RecCount;
    forall j, k | 0 <= j < k < |b|
      ensures b[j].gid != b[k].gid
    {
      assert b[j] in b && b[k] in b;
      var i :| 0 <= i < |a| && a[i] == b[j];
      var l :| 0 <= l < |a| && a[l] == b[k];
      if i == l {
        CountTwice(b, j, k);
        DistinctCount(a, b[j]);
      }
    }
  }

  lemma SameRange(a: seq<Record>, b: seq<Record>, g0: nat, len: nat)
    requires (forall r :: r in a <==> r in b) && WithinRange(a, g0, len)
    ensures WithinRange(b, g0, len)
  {
    forall k | 0 <= k < |b|
      ensures g0 <= b[k].gid < g0 + len
    {
      assert b[k] in b;
      var i :| 0 <= i < |a| && a[i] == b[k];
    }
  }

  lemma SameSlots(a: seq<Record>, b: seq<Record>, g0: nat, slots: seq<Slot>, slots': seq<Slot>)
    requires (forall r :: r in a <==> r in b) && Slotted(a, g0, slots) && Slotted(b, g0, slots')
    requires |slots| == |slots'|
    ensures slots == slots'
  {
    forall i | 0 <= i < |slots|
      ensures slots[i] == slots'[i]
    {
      if slots[i].Filled? {
        FilledSame(a, b, g0, slots, slots', i);
      } else if slots'[i].Filled? {
        FilledSame(b, a, g0, slots', slots, i);
      }
    }
  }

  lemma FilledSame(a: seq<Record>, b: seq<Record>, g0: nat, slots: seq<Slot>, slots': seq<Slot>, i: nat)
    requires (forall r :: r in a <==> r in b) && Slotted(a, g0, slots) && Slotted(b, g0, slots')
    requires i < |slots| == |slots'| && slots[i].Filled?
    ensures slots'[i] == slots[i]
  {
    var x := slots[i].rec;
    assert x in b;
    var k :| 0 <= k < |b| && b[k] == x;
    assert InSlot(b[k], g0, slots');
  }

  // What is read decides the load up to its order.
  lemma ReadDecides(a: seq<Record>, b: seq<Record>, g0: nat, len: nat, strict: bool, r: PartsResult, r': PartsResult)
    requires forall x :: RecCount(a, x) == RecCount(b, x)
    requires PartsContract(a, g0, len, strict, r) && PartsContract(b, g0, len, strict, r')
    ensures r.Merged? <==> r'.Merged?
    ensures r.Merged? ==> r == r'
  {
    SameRecords(a, b);
    hide WithinRange, DistinctIds, Slotted, RecCount;
    if r.Merged? {
      SameRange(a, b, g0, len);
      SameDistinct(a, b);
      SameSlots(a, b, g0, r.slots, r'.slots);
    } else if r'.Merged? {
      SameRange(b, a, g0, len);
      SameDistinct(b, a);
    }
  }

  // Any two schedules over the same directory load the same: both fail, or both fill the same slots.
  // This needs neither distinct ids nor a clean directory.
  lemma ScheduleIndependent(f: BucketFiles, f': BucketFiles, found: BucketFiles, p: seq<seq<Record>>,
                            p': seq<seq<Record>>, realIds: seq<nat>, offsets: seq<nat>, nlist: nat, nbase: nat,
                            size: nat, s: seq<seq<nat>>, s': seq<seq<nat>>, b: nat, len: nat, strict: bool,
                            r: PartsResult, r': PartsResult)
    requires size > 0 && Clusters(realIds, offsets, nlist) && Schedule(s, nlist) && Schedule(s', nlist)
    requires PartsOf(p, realIds, offsets, nlist, nbase, size, s, b) && FilesAfter(f, found, p)
    requires PartsOf(p', realIds, offsets, nlist, nbase, size, s', b) && FilesAfter(f', found, p')
    requires PartsContract(Scanned(f), b * size, len, strict, r)
    requires PartsContract(Scanned(f'), b * size, len, strict, r')
    ensures r.Merged? <==> r'.Merged?
    ensures r.Merged? ==> r == r'
  {
    hide Wanted, Schedule, PartsOf, PartsContract, Clusters, RecCount, Concat;
    if found.legacy.Absent? {
      hide Scanned, FilesAfter;
      SameLegacy(f, found, p);
      SameLegacy(f', found, p');
      forall x
        ensures RecCount(Scanned(f), x) == RecCount(Scanned(f'), x)
      {
        AllRead(f, found, p, x);
        AllRead(f', found, p', x);
        PartsExact(p, realIds, offsets, nlist, nbase, size, s, b, x);
        PartsExact(p', realIds, offsets, nlist, nbase, size, s', b, x);
      }
    }
    ReadDecides(Scanned(f), Scanned(f'), b * size, len, strict, r, r');
  }
}
