// External bucketing of (gid, cid, pos) records: per-bucket buffers, a bounded set of open files
// closed least-recently-used first, and files truncated on first opening, appended to afterwards.
module GidBuckets {
  import Arith
  import opened Sorting

  datatype Record = Record(gid: nat, cid: nat, pos: nat)

  const REC_BYTES: nat := 12
  const FLUSH_TARGET: nat := 4 * 1024 * 1024
  const MISSING_CID: nat := 0xFFFF_FFFF
  const LOAD_CHUNK: nat := 65536

  function BucketIndex(gid: nat, size: nat): nat
    requires size > 0
  {
    gid / size
  }

  function BucketCount(nbase: nat, size: nat): nat
    requires size > 0
  {
    if nbase == 0 then 0 else (nbase + size - 1) / size
  }

  function MaxOpenBuckets(nbucket: nat): nat {
    var cap := if nbucket < 256 then nbucket else 256;
    if cap < 1 then 1 else cap
  }

  // The records of bucket b, in the order they were logged.
  function BucketOf(log: seq<Record>, b: nat, size: nat): (r: seq<Record>)
    requires size > 0
    ensures |r| <= |log|
  {
    if log == [] then []
    else
      var last := log[|log| - 1];
      var rest := BucketOf(log[..|log| - 1], b, size);
      if BucketIndex(last.gid, size) == b then rest + [last] else rest
  }

  function Routed(share: seq<Record>, rec: Record, b: nat, size: nat): seq<Record>
    requires size > 0
  {
    if BucketIndex(rec.gid, size) == b then share + [rec] else share
  }

  function Without(lru: seq<nat>, b: nat): seq<nat> {
    if lru == [] then []
    else if lru[0] == b then Without(lru[1..], b)
    else [lru[0]] + Without(lru[1..], b)
  }

  lemma {:induction false} WithoutFacts(lru: seq<nat>, b: nat)
    requires Distinct(lru)
    ensures Distinct(Without(lru, b)) && b !in Without(lru, b)
    ensures forall x | x != b :: x in Without(lru, b) <==> x in lru
    ensures |Without(lru, b)| == |lru| - (if b in lru then 1 else 0)
  {
    if lru != [] {
      var rest := Without(lru[1..], b);
      WithoutFacts(lru[1..], b);
      assert forall x :: x in lru <==> x == lru[0] || x in lru[1..];
      if lru[0] != b {
        forall k | 0 <= k < |rest|
          ensures rest[k] != lru[0]
        {
          assert rest[k] in lru[1..];
        }
      }
    }
  }

  lemma HeadIsMember(s: seq<nat>)
    ensures s != [] ==> s[0] in s
  {
  }

  lemma {:induction false} WithoutAbsent(s: seq<nat>, b: nat)
    requires b !in s
    ensures Without(s, b) == s
  {
    if s != [] {
      WithoutAbsent(s[1..], b);
    }
  }

  ghost predicate SuffixOf(s: seq<nat>, all: seq<nat>) {
    |s| <= |all| && s == all[|all| - |s|..]
  }

  lemma WholeSuffix(s: seq<nat>)
    ensures SuffixOf(s, s)
  {
  }

  lemma DropHead(s: seq<nat>, all: seq<nat>)
    requires SuffixOf(s, all) && s != []
    ensures SuffixOf(s[1..], all)
  {
    assert s[1..] == all[|all| - |s|..][1..];
  }

  lemma WithoutHead(s: seq<nat>)
    requires Distinct(s) && s != []
    ensures Without(s, s[0]) == s[1..]
  {
    WithoutAbsent(s[1..], s[0]);
  }

  // Disk content by bucket number.
  type Disk = map<nat, seq<Record>>

  // ---- Bucket b's share of the state ----

  // File plus buffer is the bucket's share of the log; a file not yet opened is still as found.
  ghost predicate Holds(b: nat, created: bool, buf: seq<Record>, disk: Disk, found: Disk, share: seq<Record>) {
    if created then share != [] && b in disk && disk[b] + buf == share
    else buf == share && (b in disk <==> b in found) && (b in disk ==> disk[b] == found[b])
  }

  class BucketWriter {
    const size: nat
    const nbucket: nat
    const maxOpen: nat
    ghost const found: Disk
    var disk: Disk
    var outOpen: seq<bool>
    var outCreated: seq<bool>
    var bufs: seq<seq<Record>>
    var openCount: nat
    var lru: seq<nat>
    ghost var log: seq<Record>

    // The open flags, their count and the LRU list describe the same set, within the cap.
    ghost predicate OpenSet()
      reads this
    {
      && |outOpen| == |outCreated| == nbucket && maxOpen >= 1
      && Distinct(lru) && openCount == |lru| <= maxOpen
      && (forall b | b in lru :: b < nbucket)
      && (forall b | 0 <= b < nbucket :: outOpen[b] <==> b in lru)
      && (forall b | 0 <= b < nbucket :: outOpen[b] ==> outCreated[b])
    }

    ghost predicate Content()
      reads this
    {
      && size > 0 && |outCreated| == |bufs| == nbucket
      && forall b | 0 <= b < nbucket :: Holds(b, outCreated[b], bufs[b], disk, found, BucketOf(log, b, size))
    }

    constructor (gidBucketSize: nat, buckets: nat, files: Disk)
      requires gidBucketSize > 0
      ensures OpenSet() && Content() && size == gidBucketSize && nbucket == buckets
      ensures disk == found == files && log == [] && bufs == seq(buckets, _ => [])
      ensures maxOpen == if buckets < 1 then 1 else if buckets > 256 then 256 else buckets
    {
      size, nbucket, maxOpen := gidBucketSize, buckets, MaxOpenBuckets(buckets);
      disk, found, log := files, files, [];
      outOpen, outCreated := seq(buckets, _ => false), seq(buckets, _ => false);
      bufs := seq(buckets, _ => []);
      openCount, lru := 0, [];
    }

    // Moves b to the recent end, adding it if absent.
    method LruTouch(b: nat)
      requires Distinct(lru)
      modifies `lru
      ensures lru == Without(old(lru), b) + [b] && Distinct(lru)
      ensures forall x :: x in lru <==> x == b || x in old(lru)
      ensures |lru| == |old(lru)| + (if b in old(lru) then 0 else 1)
    {
      WithoutFacts(lru, b);
      lru := Without(lru, b) + [b];
    }

    method CloseBucket(b: nat)
      requires OpenSet() && Content() && b < nbucket
      modifies `outOpen, `openCount, `lru
      ensures OpenSet() && Content()
      ensures lru == Without(old(lru), b) && outOpen == old(outOpen)[b := false]
    {
      WithoutFacts(lru, b);
      if outOpen[b] {
        outOpen := outOpen[b := false];
        if openCount > 0 {
          openCount := openCount - 1;
        }
      }
      lru := Without(lru, b);
    }

    // Closes files, the least recently used first, until one more may be opened.
    method MakeRoom(ghost b: nat)
      requires OpenSet() && Content() && b < nbucket && !outOpen[b]
      modifies `outOpen, `openCount, `lru
      ensures OpenSet() && Content() && !outOpen[b] && openCount < maxOpen
      ensures forall x | 0 <= x < nbucket && outOpen[x] :: old(outOpen[x])
      ensures |lru| == if |old(lru)| >= maxOpen then maxOpen - 1 else |old(lru)|
      ensures SuffixOf(lru, old(lru))
    {
      hide Holds, SuffixOf, Without;
      ghost var before, flags := lru, outOpen;
      WholeSuffix(lru);
      while openCount >= maxOpen && lru != []
        invariant OpenSet() && Content() && !outOpen[b] && |lru| <= |before|
        invariant SuffixOf(lru, before) && (|lru| < |before| ==> |lru| >= maxOpen - 1)
        invariant |flags| == nbucket && forall x | 0 <= x < nbucket && outOpen[x] :: flags[x]
        decreases |lru|
      {
        WithoutHead(lru);
        HeadIsMember(lru);
        DropHead(lru, before);
        CloseBucket(lru[0]);
      }
    }

    // Truncates the file the first time it is opened; later openings keep what it holds.
    method OpenFile(b: nat)
      requires OpenSet() && Content() && b < nbucket && bufs[b] != [] && !outOpen[b] && openCount < maxOpen
      modifies `disk, `outOpen, `outCreated, `openCount, `lru
      ensures OpenSet() && Content() && outOpen[b] && outCreated == old(outCreated)[b := true]
      ensures lru == Without(old(lru), b) + [b]
      ensures forall x | 0 <= x < nbucket && x != b && outOpen[x] :: old(outOpen[x])
    {
      hide BucketOf;
      if !outCreated[b] {
        disk := disk[b := []];
      }
      outCreated, outOpen := outCreated[b := true], outOpen[b := true];
      openCount := openCount + 1;
      LruTouch(b);
    }

    method EnsureBucket(b: nat)
      requires OpenSet() && Content() && b < nbucket && bufs[b] != []
      modifies `disk, `outOpen, `outCreated, `openCount, `lru
      ensures OpenSet() && Content() && outOpen[b] && outCreated == old(outCreated)[b := true]
      ensures lru != [] && lru[|lru| - 1] == b
      ensures forall x | 0 <= x < nbucket && x != b && outOpen[x] :: old(outOpen[x])
    {
      hide Holds;
      if outOpen[b] {
        LruTouch(b);
      } else {
        MakeRoom(b);
        OpenFile(b);
      }
    }

    method FlushBucket(b: nat)
      requires OpenSet() && Content() && b < nbucket
      modifies this
      ensures OpenSet() && Content() && log == old(log) && bufs == old(bufs)[b := []]
      ensures outCreated == if old(bufs)[b] == [] then old(outCreated) else old(outCreated)[b := true]
      ensures forall x | 0 <= x < nbucket && x != b && outOpen[x] :: old(outOpen[x])
    {
      if bufs[b] == [] {
        return;
      }
      EnsureBucket(b);
      disk := disk[b := disk[b] + bufs[b]];
      bufs := bufs[b := []];
    }

    // Buffers one record of 12 bytes; a buffer is written out once it holds 4 MiB, and not before.
    method Append(rec: Record)
      requires OpenSet() && Content() && BucketIndex(rec.gid, size) < nbucket
      modifies this
      ensures OpenSet() && Content() && log == old(log) + [rec]
      ensures var b := BucketIndex(rec.gid, size);
        var buf := old(bufs)[b] + [rec];
        bufs == old(bufs)[b := if 12 * |buf| >= 4 * 1024 * 1024 then [] else buf]
    {
      hide BucketIndex;
      var b := BucketIndex(rec.gid, size);
      ghost var before := log;
      bufs := bufs[b := bufs[b] + [rec]];
      log := log + [rec];
      assert log[..|log| - 1] == before;
      Logged(before, rec);
      if REC_BYTES * |bufs[b]| >= FLUSH_TARGET {
        FlushBucket(b);
      }
    }

    lemma Logged(before: seq<Record>, rec: Record)
      requires size > 0
      ensures forall b: nat :: BucketOf(before + [rec], b, size) == Routed(BucketOf(before, b, size), rec, b, size)
    {
      hide BucketIndex;
      assert (before + [rec])[..|before|] == before;
    }

    // Writes out every buffer and closes every file.
    method Finish()
      requires OpenSet() && Content()
      modifies this
      ensures OpenSet() && Content() && log == old(log) && lru == [] && openCount == 0
      ensures forall b | 0 <= b < nbucket :: bufs[b] == []
    {
      for b := 0 to nbucket
        invariant OpenSet() && Content() && log == old(log)
        invariant forall j | 0 <= j < b :: bufs[j] == [] && !outOpen[j]
      {
        FlushBucket(b);
        CloseBucket(b);
      }
      HeadIsMember(lru);
    }
  }

  // After Finish: a bucket with records has exactly them on disk, in order; a bucket without any
  // was never opened, and its file, if there was one, is still as found.
  ghost predicate Delivered(disk: Disk, found: Disk, log: seq<Record>, nbucket: nat, size: nat)
    requires size > 0
  {
    forall b | 0 <= b < nbucket ::
      var share := BucketOf(log, b, size);
      if share != [] then b in disk && disk[b] == share
      else (b in disk <==> b in found) && (b in disk ==> disk[b] == found[b])
  }

  // ---- Filling the buckets from the clusters ----

  // The records of one cluster's first n real nodes; ids at or beyond nbase are skipped.
  function ClusterRecords(ids: seq<nat>, cid: nat, nbase: nat, n: nat): (r: seq<Record>)
    requires n <= |ids|
    ensures |r| <= n
    ensures forall k | 0 <= k < |r| :: r[k].gid < nbase
  {
    if n == 0 then []
    else ClusterRecords(ids, cid, nbase, n - 1) + (if ids[n - 1] < nbase then [Record(ids[n - 1], cid, n - 1)] else [])
  }

  // real_ids[lo..hi] of a cluster; empty when the offsets run backwards.
  function Span(offsets: seq<nat>, c: nat): (r: (nat, nat))
    requires c + 1 < |offsets|
    ensures r.0 <= r.1
  {
    (offsets[c], if offsets[c + 1] >= offsets[c] then offsets[c + 1] else offsets[c])
  }

  predicate Readable(realIds: seq<nat>, offsets: seq<nat>, c: nat)
    requires c + 1 < |offsets|
  {
    var s := Span(offsets, c);
    s.0 == s.1 || s.1 <= |realIds|
  }

  function ClusterIds(realIds: seq<nat>, offsets: seq<nat>, c: nat): seq<nat>
    requires c + 1 < |offsets| && Readable(realIds, offsets, c)
  {
    var s := Span(offsets, c);
    if s.0 == s.1 then [] else realIds[s.0..s.1]
  }

  // A cluster's ids are those between its two offsets, if the table reaches that far; none when the offsets
  // do not ascend, wherever they point.
  lemma SpanMeans(realIds: seq<nat>, offsets: seq<nat>, c: nat)
    requires c + 1 < |offsets|
    ensures offsets[c + 1] <= offsets[c] ==> Readable(realIds, offsets, c) && ClusterIds(realIds, offsets, c) == []
    ensures offsets[c] < offsets[c + 1] ==> (Readable(realIds, offsets, c) <==> offsets[c + 1] <= |realIds|)
    ensures offsets[c] < offsets[c + 1] <= |realIds| ==>
      ClusterIds(realIds, offsets, c) == realIds[offsets[c]..offsets[c + 1]]
  {
  }

  ghost predicate AllReadable(realIds: seq<nat>, offsets: seq<nat>, c: nat) {
    c < |offsets| && forall j | 0 <= j < c :: Readable(realIds, offsets, j)
  }

  lemma ReadableLast(realIds: seq<nat>, offsets: seq<nat>, c: nat)
    requires c + 1 < |offsets|
    ensures AllReadable(realIds, offsets, c + 1) <==>
      AllReadable(realIds, offsets, c) && Readable(realIds, offsets, c)
  {
    hide Readable;
  }

  function AllRecords(realIds: seq<nat>, offsets: seq<nat>, nbase: nat, c: nat): (r: seq<Record>)
    requires AllReadable(realIds, offsets, c)
    ensures forall k | 0 <= k < |r| :: r[k].gid < nbase
  {
    if c == 0 then []
    else
      var ids := ClusterIds(realIds, offsets, c - 1);
      AllRecords(realIds, offsets, nbase, c - 1) + ClusterRecords(ids, c - 1, nbase, |ids|)
  }

  function TotalReal(realIds: seq<nat>, offsets: seq<nat>, c: nat): nat
    requires AllReadable(realIds, offsets, c)
  {
    if c == 0 then 0 else TotalReal(realIds, offsets, c - 1) + |ClusterIds(realIds, offsets, c - 1)|
  }

  lemma NextCluster(realIds: seq<nat>, offsets: seq<nat>, nbase: nat, c: nat)
    requires c + 1 < |offsets| && AllReadable(realIds, offsets, c + 1)
    ensures AllReadable(realIds, offsets, c) && Readable(realIds, offsets, c)
    ensures var ids := ClusterIds(realIds, offsets, c);
      && AllRecords(realIds, offsets, nbase, c + 1) ==
         AllRecords(realIds, offsets, nbase, c) + ClusterRecords(ids, c, nbase, |ids|)
      && TotalReal(realIds, offsets, c + 1) == TotalReal(realIds, offsets, c) + |ids|
  {
    hide Readable, ClusterIds, ClusterRecords;
  }

  lemma UnreadableStays(realIds: seq<nat>, offsets: seq<nat>, c: nat, nlist: nat)
    requires c < nlist < |offsets| && !AllReadable(realIds, offsets, c + 1)
    ensures !AllReadable(realIds, offsets, nlist)
  {
  }

  lemma NoCluster(realIds: seq<nat>, offsets: seq<nat>, nbase: nat)
    requires |offsets| > 0
    ensures AllReadable(realIds, offsets, 0)
    ensures AllRecords(realIds, offsets, nbase, 0) == [] && TotalReal(realIds, offsets, 0) == 0
  {
  }

  lemma IndexInRange(gid: nat, nbase: nat, size: nat)
    requires size > 0 && gid < nbase
    ensures BucketIndex(gid, size) < BucketCount(nbase, size)
  {
    var b := gid / size;
    assert gid == b * size + gid % size;
    var n := (nbase + size - 1) / size;
    assert nbase + size - 1 == n * size + (nbase + size - 1) % size;
    assert b >= n ==> (b - n) * size >= 0;
  }

  method BucketCluster(w: BucketWriter, gids: seq<nat>, cid: nat, nbase: nat) returns (written: nat, skipped: nat)
    requires w.OpenSet() && w.Content() && w.nbucket == BucketCount(nbase, w.size)
    modifies w
    ensures w.OpenSet() && w.Content()
    ensures w.log == old(w.log) + ClusterRecords(gids, cid, nbase, |gids|)
    ensures |w.log| == |old(w.log)| + written && written + skipped == |gids|
  {
    hide BucketIndex, BucketCount, Holds;
    written, skipped := 0, 0;
    for pos := 0 to |gids|
      invariant w.OpenSet() && w.Content()
      invariant w.log == old(w.log) + ClusterRecords(gids, cid, nbase, pos)
      invariant |w.log| == |old(w.log)| + written && written + skipped == pos
    {
      var gid := gids[pos];
      if gid >= nbase {
        skipped := skipped + 1;
      } else {
        IndexInRange(gid, nbase, w.size);
        w.Append(Record(gid, cid, pos));
        written := written + 1;
      }
    }
  }

  lemma FinishedDelivers(w: BucketWriter)
    requires w.Content() && forall b | 0 <= b < w.nbucket :: w.bufs[b] == []
    ensures Delivered(w.disk, w.found, w.log, w.nbucket, w.size)
  {
    hide BucketOf;
  }

  datatype BuildResult = Done(disk: Disk, written: nat, skipped: nat) | ZeroBucketSize | BadOffsets | ShortRead

  // Appends every cluster's records; fails at the first cluster that the id table does not cover.
  method FillBuckets(w: BucketWriter, realIds: seq<nat>, offsets: seq<nat>, nlist: nat, nbase: nat)
    returns (ok: bool, written: nat, skipped: nat)
    requires w.OpenSet() && w.Content() && w.nbucket == BucketCount(nbase, w.size) && w.log == []
    requires |offsets| == nlist + 1
    modifies w
    ensures w.OpenSet() && w.Content()
    ensures ok <==> AllReadable(realIds, offsets, nlist)
    ensures ok ==> w.log == AllRecords(realIds, offsets, nbase, nlist) && written == |w.log|
    ensures ok ==> written + skipped == TotalReal(realIds, offsets, nlist)
  {
    hide *;
    ok, written, skipped := false, 0, 0;
    NoCluster(realIds, offsets, nbase);
    for cid := 0 to nlist
      invariant w.OpenSet() && w.Content()
      invariant AllReadable(realIds, offsets, cid)
      invariant w.log == AllRecords(realIds, offsets, nbase, cid)
      invariant written == |w.log| && written + skipped == TotalReal(realIds, offsets, cid)
    {
      ReadableLast(realIds, offsets, cid);
      if !Readable(realIds, offsets, cid) {
        UnreadableStays(realIds, offsets, cid, nlist);
        return;
      }
      var gids := ClusterIds(realIds, offsets, cid);
      var here, past := BucketCluster(w, gids, cid, nbase);
      NextCluster(realIds, offsets, nbase, cid);
      written, skipped := written + here, skipped + past;
    }
    ok := true;
  }

  // Every record with an id in range is written once, in order, to the file of its bucket.
  method BuildGidBuckets(realIds: seq<nat>, offsets: seq<nat>, nlist: nat, nbase: nat, size: nat, found: Disk)
    returns (r: BuildResult)
    ensures r.ZeroBucketSize? <==> size == 0
    ensures r.BadOffsets? <==> size > 0 && |offsets| != nlist + 1
    ensures r.ShortRead? <==>
      size > 0 && |offsets| == nlist + 1 && !AllReadable(realIds, offsets, nlist)
    ensures r.Done? ==>
      var log := AllRecords(realIds, offsets, nbase, nlist);
      && Delivered(r.disk, found, log, BucketCount(nbase, size), size)
      && r.written == |log| && r.written + r.skipped == TotalReal(realIds, offsets, nlist)
  {
    hide *;
    if size == 0 {
      return ZeroBucketSize;
    }
    var w := new BucketWriter(size, BucketCount(nbase, size), found);
    if |offsets| != nlist + 1 {
      return BadOffsets;
    }
    var ok, written, skipped := FillBuckets(w, realIds, offsets, nlist, nbase);
    if !ok {
      return ShortRead;
    }
    w.Finish();
    FinishedDelivers(w);
    r := Done(w.disk, written, skipped);
  }

  // ---- Loading a bucket ----

  ghost predicate WithinRange(file: seq<Record>, g0: nat, len: nat) {
    forall k | 0 <= k < |file| :: g0 <= file[k].gid < g0 + len
  }

  ghost predicate DistinctIds(file: seq<Record>) {
    forall j, k | 0 <= j < k < |file| :: file[j].gid != file[k].gid
  }

  // Each record is at its local id, and each taken slot is some record's.
  ghost predicate Entered(file: seq<Record>, g0: nat, cids: seq<nat>, poss: seq<nat>) {
    |cids| == |poss| && forall k | 0 <= k < |file| :: At(file[k], g0, cids, poss)
  }

  ghost predicate At(rec: Record, g0: nat, cids: seq<nat>, poss: seq<nat>) {
    && |cids| == |poss| && g0 <= rec.gid < g0 + |cids|
    && cids[rec.gid - g0] == rec.cid && poss[rec.gid - g0] == rec.pos
  }

  ghost predicate Owned(file: seq<Record>, g0: nat, cids: seq<nat>) {
    forall i | 0 <= i < |cids| && cids[i] != MISSING_CID :: HasId(file, g0 + i)
  }

  ghost predicate HasId(file: seq<Record>, gid: nat) {
    exists k :: 0 <= k < |file| && file[k].gid == gid
  }

  // The tables list exactly the file's records, by local id.
  ghost predicate Listed(file: seq<Record>, g0: nat, cids: seq<nat>, poss: seq<nat>) {
    Entered(file, g0, cids, poss) && Owned(file, g0, cids)
  }

  datatype LoadResult =
    | Loaded(cids: seq<nat>, poss: seq<nat>, seen: nat)
    | MissingFile | OutsideRange | DuplicateId | Incomplete

  lemma HasIdGrows(file: seq<Record>, rec: Record, gid: nat)
    requires HasId(file, gid) || rec.gid == gid
    ensures HasId(file + [rec], gid)
  {
    var next := file + [rec];
    if HasId(file, gid) {
      var k :| 0 <= k < |file| && file[k].gid == gid;
      assert next[k].gid == gid;
    } else {
      assert next[|file|].gid == gid;
    }
  }

  // A record put into a free slot leaves the others where they are.
  lemma EnterOne(done: seq<Record>, rec: Record, g0: nat, cids: seq<nat>, poss: seq<nat>)
    requires Listed(done, g0, cids, poss) && g0 <= rec.gid < g0 + |cids|
    requires cids[rec.gid - g0] == MISSING_CID && rec.cid != MISSING_CID
    requires forall k | 0 <= k < |done| :: done[k].cid != MISSING_CID
    ensures Listed(done + [rec], g0, cids[rec.gid - g0 := rec.cid], poss[rec.gid - g0 := rec.pos])
    ensures forall k | 0 <= k < |done| :: done[k].gid != rec.gid
  {
    var local := rec.gid - g0;
    var cids', poss', next := cids[local := rec.cid], poss[local := rec.pos], done + [rec];
    forall k | 0 <= k < |next|
      ensures At(next[k], g0, cids', poss')
    {
      if k < |done| {
        assert next[k] == done[k] && At(done[k], g0, cids, poss);
      }
    }
    forall i | 0 <= i < |cids'| && cids'[i] != MISSING_CID
      ensures HasId(next, g0 + i)
    {
      HasIdGrows(done, rec, g0 + i);
    }
    forall k | 0 <= k < |done|
      ensures done[k].gid != rec.gid
    {
      assert At(done[k], g0, cids, poss);
    }
  }

  // What LoadBucket promises. It loads exactly when the records are in range, no id occurs twice
  // and, in strict mode, every slot is filled; each failure names its own cause.
  ghost predicate LoadContract(file: seq<Record>, present: bool, g0: nat, len: nat, strict: bool, r: LoadResult) {
    if len == 0 then r == Loaded([], [], 0)
    else if !present then r == if strict then MissingFile else Loaded(Blank(len), seq(len, _ => 0), 0)
    else
      && (r.Loaded? <==> WithinRange(file, g0, len) && DistinctIds(file) && (strict ==> |file| == len))
      && (r.Loaded? ==> |r.cids| == len && r.seen == |file| && Listed(file, g0, r.cids, r.poss))
      && (r.OutsideRange? ==> !WithinRange(file, g0, len)) && (r.DuplicateId? ==> !DistinctIds(file))
      && !r.MissingFile?
  }

  // Reads the file in fixed chunks into tables indexed by local id.
  method LoadBucket(file: seq<Record>, present: bool, g0: nat, len: nat, strict: bool) returns (r: LoadResult)
    requires forall k | 0 <= k < |file| :: file[k].cid != MISSING_CID
    ensures LoadContract(file, present, g0, len, strict, r)
  {
    var cids, poss := Blank(len), seq(len, _ => 0);
    if len == 0 {
      assert cids == [] && poss == [];
      return Loaded([], [], 0);
    }
    if !present {
      return if strict then MissingFile else Loaded(cids, poss, 0);
    }
    var at := 0;
    var error := Incomplete;
    while at < |file|
      invariant at <= |file| && |cids| == |poss| == len && error == Incomplete
      invariant Listed(file[..at], g0, cids, poss) && DistinctIds(file[..at])
      decreases |file| - at
    {
      var chunk := if |file| - at < LOAD_CHUNK then |file| - at else LOAD_CHUNK;
      error, cids, poss := LoadChunk(file, at, chunk, g0, cids, poss);
      if error != Incomplete {
        return error;
      }
      at := at + chunk;
    }
    assert file[..at] == file;
    ListedInRange(file, g0, cids, poss);
    if strict && at != len {
      return Incomplete;
    }
    r := Loaded(cids, poss, at);
  }

  lemma ListedInRange(file: seq<Record>, g0: nat, cids: seq<nat>, poss: seq<nat>)
    requires Listed(file, g0, cids, poss)
    ensures WithinRange(file, g0, |cids|)
  {
    forall k | 0 <= k < |file|
      ensures g0 <= file[k].gid < g0 + |cids|
    {
      assert At(file[k], g0, cids, poss);
    }
  }

  // One read of the file; Incomplete stands for no error so far.
  method LoadChunk(file: seq<Record>, at: nat, chunk: nat, g0: nat, cids0: seq<nat>, poss0: seq<nat>)
    returns (error: LoadResult, cids: seq<nat>, poss: seq<nat>)
    requires at + chunk <= |file| && forall k | 0 <= k < |file| :: file[k].cid != MISSING_CID
    requires |poss0| == |cids0| && Listed(file[..at], g0, cids0, poss0) && DistinctIds(file[..at])
    ensures error == Incomplete || error == OutsideRange || error == DuplicateId
    ensures error == Incomplete ==>
      && |cids| == |cids0| == |poss|
      && Listed(file[..at + chunk], g0, cids, poss) && DistinctIds(file[..at + chunk])
    ensures error == OutsideRange ==> !WithinRange(file, g0, |cids0|)
    ensures error == DuplicateId ==> !DistinctIds(file)
  {
    hide Entered;
    error, cids, poss := Incomplete, cids0, poss0;
    for i := 0 to chunk
      invariant |cids| == |cids0| && error == Incomplete && |poss| == |cids|
      invariant Listed(file[..at + i], g0, cids, poss) && DistinctIds(file[..at + i])
    {
      var rec := file[at + i];
      ghost var done := file[..at + i];
      if rec.gid < g0 || rec.gid >= g0 + |cids| {
        error := OutsideRange;
        return;
      }
      var local := rec.gid - g0;
      if cids[local] != MISSING_CID {
        assert HasId(done, g0 + local);
        error := DuplicateId;
        return;
      }
      EnterOne(done, rec, g0, cids, poss);
      cids, poss := cids[local := rec.cid], poss[local := rec.pos];
      assert file[..at + i + 1] == done + [rec];
    }
  }

  function Blank(len: nat): seq<nat> {
    seq(len, _ => MISSING_CID)
  }

  // ---- The round trip ----

  lemma {:induction false} ShareMembers(log: seq<Record>, b: nat, size: nat)
    requires size > 0
    ensures forall r :: r in BucketOf(log, b, size) <==> r in log && BucketIndex(r.gid, size) == b
  {
    hide BucketIndex;
    if log != [] {
      var n := |log| - 1;
      ShareMembers(log[..n], b, size);
      assert log == log[..n] + [log[n]];
      assert forall r :: r in log <==> r in log[..n] || r == log[n];
    }
  }

  lemma {:induction false} ShareDistinct(log: seq<Record>, b: nat, size: nat)
    requires size > 0 && DistinctIds(log)
    ensures DistinctIds(BucketOf(log, b, size))
  {
    hide BucketIndex;
    if log != [] {
      var n := |log| - 1;
      ShareDistinct(log[..n], b, size);
      ShareMembers(log[..n], b, size);
      var share := BucketOf(log[..n], b, size);
      forall k | 0 <= k < |share|
        ensures share[k].gid != log[n].gid
      {
        assert share[k] in share;
        var j :| 0 <= j < n && log[..n][j] == share[k];
        assert log[j].gid != log[n].gid;
      }
    }
  }

  function BucketLen(b: nat, nbase: nat, size: nat): int {
    if size <= nbase - b * size then size else nbase - b * size
  }

  // An id in range falls in the span its bucket is loaded with.
  lemma SpanHolds(gid: nat, b: nat, nbase: nat, size: nat)
    requires size > 0 && gid < nbase && BucketIndex(gid, size) == b
    ensures b * size <= gid < b * size + BucketLen(b, nbase, size)
  {
    assert gid == gid / size * size + gid % size;
  }

  lemma SpanPositive(b: nat, nbase: nat, size: nat)
    requires size > 0 && b < BucketCount(nbase, size)
    ensures BucketLen(b, nbase, size) > 0
  {
    var n := (nbase + size - 1) / size;
    assert n * size <= nbase + size - 1;
    assert (n - 1 - b) * size >= 0;
    assert n * size == (n - 1 - b) * size + b * size + size;
  }

  // What the file of bucket b must be for a load to return the log's records of that bucket.
  ghost predicate Recovered(log: seq<Record>, b: nat, size: nat, r: LoadResult)
    requires size > 0
  {
    && r.Loaded? && |r.cids| == |r.poss|
    && (forall rec | rec in log && BucketIndex(rec.gid, size) == b :: At(rec, b * size, r.cids, r.poss))
    && (forall i | 0 <= i < |r.cids| && r.cids[i] != MISSING_CID :: HasId(log, b * size + i))
  }

  // The bucket is loaded from its file, over the ids it covers.
  ghost predicate LoadedFrom(disk: Disk, b: nat, nbase: nat, size: nat, strict: bool, r: LoadResult) {
    var len := BucketLen(b, nbase, size);
    len >= 0 && LoadContract(if b in disk then disk[b] else [], b in disk, b * size, len, strict, r)
  }

  // The bucket has records of its own, so its file was truncated; or no old records are in the way.
  ghost predicate Clean(log: seq<Record>, found: Disk, b: nat, size: nat)
    requires size > 0
  {
    BucketOf(log, b, size) != [] || b !in found || found[b] == []
  }

  // Every id the bucket covers was logged.
  ghost predicate Complete(log: seq<Record>, b: nat, nbase: nat, size: nat) {
    forall gid: nat | InSpan(gid, b, nbase, size) :: HasId(log, gid)
  }

  // The ids bucket b covers.
  ghost predicate InSpan(gid: nat, b: nat, nbase: nat, size: nat) {
    b * size <= gid < b * size + BucketLen(b, nbase, size)
  }

  ghost predicate Stored(file: seq<Record>) {
    forall k | 0 <= k < |file| :: file[k].cid < MISSING_CID
  }

  // With distinct ids, the load of a bucket the writer delivered returns for each record exactly the
  // cluster and position it was logged with, and nothing else, if and only if no old records are in
  // the way and, in strict mode, every id the bucket covers was logged.
  lemma LoadRecoversIff(log: seq<Record>, disk: Disk, found: Disk, b: nat, nbase: nat, size: nat, strict: bool,
                        r: LoadResult)
    requires size > 0 && b < BucketCount(nbase, size)
    requires Delivered(disk, found, log, BucketCount(nbase, size), size)
    requires DistinctIds(log) && Stored(log) && forall k | 0 <= k < |log| :: log[k].gid < nbase
    requires b in found ==> Stored(found[b])
    requires LoadedFrom(disk, b, nbase, size, strict, r)
    ensures Recovered(log, b, size, r) <==> Clean(log, found, b, size) && (strict ==> Complete(log, b, nbase, size))
  {
    hide BucketIndex, BucketCount, BucketLen, BucketOf, LoadContract, Recovered, Complete, Stored;
    var share, len := BucketOf(log, b, size), BucketLen(b, nbase, size);
    SpanPositive(b, nbase, size);
    ShareMembers(log, b, size);
    if share != [] {
      ShareDistinct(log, b, size);
      ShareInSpan(share, b, nbase, size);
      ShareComplete(log, share, b, nbase, size);
      FileRecovers(log, share, b, size, len, strict, r);
    } else {
      NothingComplete(log, b, nbase, size);
      if b in found && found[b] != [] {
        StaleLeaks(log, found[b], b, nbase, size, strict, r);
      } else {
        BlankRecovers(log, b in found, b, size, len, strict, r);
      }
    }
  }

  // ---- Filling a span ----

  ghost function IdSet(file: seq<Record>): set<nat> {
    set k | 0 <= k < |file| :: file[k].gid
  }

  ghost function SpanSet(g0: nat, len: nat): (r: set<nat>)
    ensures |r| == len && forall gid: nat :: gid in r <==> g0 <= gid < g0 + len
  {
    if len == 0 then {} else SpanSet(g0, len - 1) + {g0 + len - 1}
  }

  lemma {:induction false} IdSetSize(file: seq<Record>)
    requires DistinctIds(file)
    ensures |IdSet(file)| == |file|
  {
    if file != [] {
      var n := |file| - 1;
      IdSetSize(file[..n]);
      assert IdSet(file) == IdSet(file[..n]) + {file[n].gid};
      assert file[n].gid !in IdSet(file[..n]);
    }
  }

  lemma SubsetSize(a: set<nat>, b: set<nat>)
    requires a <= b
    ensures |a| <= |b| && (|a| == |b| <==> a == b)
  {
    assert b == a + (b - a);
  }

  // Distinct ids within a span are as many as the span is long exactly when they fill it.
  lemma FillsSpan(file: seq<Record>, g0: nat, len: nat)
    requires WithinRange(file, g0, len) && DistinctIds(file)
    ensures |file| == len <==> forall gid | g0 <= gid < g0 + len :: HasId(file, gid)
  {
    var ids, span := IdSet(file), SpanSet(g0, len);
    IdSetSize(file);
    SubsetSize(ids, span);
    forall gid: nat
      ensures HasId(file, gid) <==> gid in ids
    {
    }
    if forall gid | g0 <= gid < g0 + len :: HasId(file, gid) {
      assert forall gid | gid in span :: HasId(file, gid);
    }
  }

  lemma ShareComplete(log: seq<Record>, share: seq<Record>, b: nat, nbase: nat, size: nat)
    requires size > 0 && BucketLen(b, nbase, size) >= 0
    requires forall rec :: rec in share <==> rec in log && BucketIndex(rec.gid, size) == b
    requires WithinRange(share, b * size, BucketLen(b, nbase, size)) && DistinctIds(share)
    ensures |share| == BucketLen(b, nbase, size) <==> Complete(log, b, nbase, size)
  {
    hide BucketIndex, BucketLen, WithinRange, DistinctIds, HasId;
    FillsSpan(share, b * size, BucketLen(b, nbase, size));
    forall gid: nat | InSpan(gid, b, nbase, size)
      ensures HasId(share, gid) <==> HasId(log, gid)
    {
      SpanIndex(gid, b, nbase, size);
      SameIds(log, share, gid);
    }
  }

  lemma SameIds(log: seq<Record>, share: seq<Record>, gid: nat)
    requires forall rec: Record | rec.gid == gid :: rec in share <==> rec in log
    ensures HasId(share, gid) <==> HasId(log, gid)
  {
    if HasId(log, gid) {
      var k :| 0 <= k < |log| && log[k].gid == gid;
      assert log[k] in share;
    }
    if HasId(share, gid) {
      var k :| 0 <= k < |share| && share[k].gid == gid;
      assert share[k] in log;
    }
  }

  lemma SpanIndex(gid: nat, b: nat, nbase: nat, size: nat)
    requires size > 0 && InSpan(gid, b, nbase, size)
    ensures BucketIndex(gid, size) == b
  {
    Arith.DivUnique(gid, size, b, gid - b * size);
  }

  lemma NothingComplete(log: seq<Record>, b: nat, nbase: nat, size: nat)
    requires size > 0 && BucketLen(b, nbase, size) > 0
    requires forall rec | rec in log :: BucketIndex(rec.gid, size) != b
    ensures forall gid: nat | InSpan(gid, b, nbase, size) :: !HasId(log, gid)
    ensures !Complete(log, b, nbase, size)
  {
    hide BucketIndex, BucketLen;
    assert InSpan(b * size, b, nbase, size);
    forall gid: nat, k | InSpan(gid, b, nbase, size) && 0 <= k < |log|
      ensures log[k].gid != gid
    {
      SpanIndex(gid, b, nbase, size);
      assert log[k] in log;
    }
  }

  // Old records of a bucket that is never opened are loaded as if they were current.
  lemma StaleLeaks(log: seq<Record>, file: seq<Record>, b: nat, nbase: nat, size: nat, strict: bool, r: LoadResult)
    requires size > 0 && BucketLen(b, nbase, size) > 0 && file != [] && Stored(file)
    requires forall gid: nat | InSpan(gid, b, nbase, size) :: !HasId(log, gid)
    requires LoadContract(file, true, b * size, BucketLen(b, nbase, size), strict, r)
    ensures !Recovered(log, b, size, r)
  {
    hide BucketIndex, BucketLen, DistinctIds, WithinRange, HasId;
    if r.Loaded? {
      assert At(file[0], b * size, r.cids, r.poss);
      var i := file[0].gid - b * size;
      assert InSpan(b * size + i, b, nbase, size);
      assert r.cids[i] != MISSING_CID;
    }
  }

  lemma ShareInSpan(share: seq<Record>, b: nat, nbase: nat, size: nat)
    requires size > 0 && forall rec | rec in share :: rec.gid < nbase && BucketIndex(rec.gid, size) == b
    requires BucketLen(b, nbase, size) >= 0
    ensures WithinRange(share, b * size, BucketLen(b, nbase, size))
  {
    hide BucketIndex, BucketLen;
    forall k | 0 <= k < |share|
      ensures b * size <= share[k].gid < b * size + BucketLen(b, nbase, size)
    {
      assert share[k] in share;
      SpanHolds(share[k].gid, b, nbase, size);
    }
  }

  lemma BlankRecovers(log: seq<Record>, present: bool, b: nat, size: nat, len: nat, strict: bool, r: LoadResult)
    requires size > 0 && len > 0 && forall rec | rec in log :: BucketIndex(rec.gid, size) != b
    requires LoadContract([], present, b * size, len, strict, r)
    ensures Recovered(log, b, size, r) <==> !strict
  {
    hide BucketIndex;
    if r.Loaded? {
      assert forall gid :: !HasId([], gid);
    }
  }

  lemma FileRecovers(log: seq<Record>, share: seq<Record>, b: nat, size: nat, len: nat, strict: bool, r: LoadResult)
    requires size > 0 && len > 0
    requires forall rec :: rec in share <==> rec in log && BucketIndex(rec.gid, size) == b
    requires WithinRange(share, b * size, len) && DistinctIds(share)
    requires LoadContract(share, true, b * size, len, strict, r)
    ensures Recovered(log, b, size, r) <==> (strict ==> |share| == len)
  {
    hide BucketIndex, WithinRange, DistinctIds;
    if r.Loaded? {
      ShareListed(log, share, b * size, r.cids, r.poss);
    }
  }

  lemma ShareListed(log: seq<Record>, share: seq<Record>, g0: nat, cids: seq<nat>, poss: seq<nat>)
    requires Listed(share, g0, cids, poss) && forall r | r in share :: r in log
    ensures forall r | r in share :: At(r, g0, cids, poss)
    ensures forall i | 0 <= i < |cids| && cids[i] != MISSING_CID :: HasId(log, g0 + i)
  {
    forall i | 0 <= i < |cids| && cids[i] != MISSING_CID
      ensures HasId(log, g0 + i)
    {
      assert HasId(share, g0 + i);
      var k :| 0 <= k < |share| && share[k].gid == g0 + i;
      assert share[k] in log;
      var j :| 0 <= j < |log| && log[j] == share[k];
    }
  }

  // ---- From the id table to the loaded buckets ----

  // Offsets that partition the id table, as the cluster files promise.
  ghost predicate Partitioned(realIds: seq<nat>, offsets: seq<nat>, nlist: nat): (p: bool)
    ensures p ==> |offsets| == nlist + 1 && AllReadable(realIds, offsets, nlist)
  {
    && |offsets| == nlist + 1 && (forall j | 0 <= j < nlist :: offsets[j] <= offsets[j + 1])
    && (forall j | 0 <= j <= nlist :: offsets[j] <= |realIds|)
  }

  // The record is the real node it says: the pos-th of cluster cid, one of the first c clusters.
  ghost predicate Names(rec: Record, realIds: seq<nat>, offsets: seq<nat>, c: nat) {
    && rec.cid < c < |offsets| && offsets[rec.cid] + rec.pos < offsets[rec.cid + 1] <= |realIds|
    && realIds[offsets[rec.cid] + rec.pos] == rec.gid
  }

  // Where in the id table the record comes from.
  ghost function Source(rec: Record, offsets: seq<nat>): nat {
    if rec.cid < |offsets| then offsets[rec.cid] + rec.pos else 0
  }

  ghost predicate Exactly(log: seq<Record>, realIds: seq<nat>, offsets: seq<nat>, nbase: nat, c: nat) {
    forall rec: Record :: rec in log <==> Names(rec, realIds, offsets, c) && rec.gid < nbase
  }

  ghost predicate Ascending(log: seq<Record>, offsets: seq<nat>, hi: nat) {
    && (forall k | 0 <= k < |log| :: Source(log[k], offsets) < hi)
    && (forall j, k | 0 <= j < k < |log| :: Source(log[j], offsets) < Source(log[k], offsets))
  }

  lemma {:induction false} ClusterRecordsAre(ids: seq<nat>, cid: nat, nbase: nat, n: nat)
    requires n <= |ids|
    ensures forall rec: Record ::
      rec in ClusterRecords(ids, cid, nbase, n) <==>
      rec.cid == cid && rec.pos < n && ids[rec.pos] == rec.gid && rec.gid < nbase
  {
    if n > 0 {
      ClusterRecordsAre(ids, cid, nbase, n - 1);
    }
  }

  lemma {:induction false} ClusterRecordsAscend(ids: seq<nat>, cid: nat, nbase: nat, n: nat)
    requires n <= |ids|
    ensures PosAscend(ClusterRecords(ids, cid, nbase, n))
  {
    hide PosAscend;
    if n > 0 {
      ClusterRecordsAre(ids, cid, nbase, n - 1);
      ClusterRecordsAscend(ids, cid, nbase, n - 1);
      var a := ClusterRecords(ids, cid, nbase, n - 1);
      PosAscendGrows(a, Record(ids[n - 1], cid, n - 1));
    } else {
      PosAscendEmpty();
    }
  }

  ghost predicate PosAscend(r: seq<Record>) {
    forall j, k | 0 <= j < k < |r| :: r[j].pos < r[k].pos
  }

  lemma PosAscendEmpty()
    ensures PosAscend([])
  {
  }

  lemma PosAscendGrows(a: seq<Record>, rec: Record)
    requires PosAscend(a) && forall x | x in a :: x.pos < rec.pos
    ensures PosAscend(a + [rec]) && PosAscend(a + [])
  {
    assert forall j | 0 <= j < |a| :: a[j] in a;
    assert a + [] == a;
  }

  lemma PartitionReadable(realIds: seq<nat>, offsets: seq<nat>, nlist: nat, c: nat)
    requires Partitioned(realIds, offsets, nlist) && c < nlist
    ensures |offsets| == nlist + 1 && Readable(realIds, offsets, c)
    ensures ClusterIds(realIds, offsets, c) == realIds[offsets[c]..offsets[c + 1]]
  {
  }

  // One more cluster's records are the records of one more cluster.
  lemma NamesStep(rec: Record, realIds: seq<nat>, offsets: seq<nat>, nlist: nat, c: nat)
    requires Partitioned(realIds, offsets, nlist) && c < nlist
    ensures var ids := realIds[offsets[c]..offsets[c + 1]];
      Names(rec, realIds, offsets, c + 1) <==>
      Names(rec, realIds, offsets, c) || (rec.cid == c && rec.pos < |ids| && ids[rec.pos] == rec.gid)
  {
  }

  lemma AscendingJoin(a: seq<Record>, b: seq<Record>, cid: nat, offsets: seq<nat>, n: nat)
    requires cid < |offsets| && Ascending(a, offsets, offsets[cid])
    requires forall k | 0 <= k < |b| :: b[k] in b && b[k].cid == cid && b[k].pos < n
    requires PosAscend(b)
    ensures Ascending(a + b, offsets, offsets[cid] + n)
  {
    var r := a + b;
    forall k | 0 <= k < |r|
      ensures Source(r[k], offsets) < offsets[cid] + n && (k >= |a| ==> Source(r[k], offsets) >= offsets[cid])
    {
      assert k < |a| ==> r[k] == a[k];
      assert k >= |a| ==> r[k] == b[k - |a|];
    }
    forall j, k | 0 <= j < k < |r|
      ensures Source(r[j], offsets) < Source(r[k], offsets)
    {
      assert k < |a| ==> r[k] == a[k] && r[j] == a[j];
      assert j >= |a| ==> r[k] == b[k - |a|] && r[j] == b[j - |a|];
      assert j < |a| ==> r[j] == a[j];
    }
  }

  lemma AscendingStep(a: seq<Record>, ids: seq<nat>, cid: nat, nbase: nat, offsets: seq<nat>)
    requires cid < |offsets| && Ascending(a, offsets, offsets[cid])
    ensures Ascending(a + ClusterRecords(ids, cid, nbase, |ids|), offsets, offsets[cid] + |ids|)
  {
    hide ClusterRecords, Ascending, PosAscend;
    var b := ClusterRecords(ids, cid, nbase, |ids|);
    ClusterRecordsAre(ids, cid, nbase, |ids|);
    ClusterRecordsAscend(ids, cid, nbase, |ids|);
    forall k | 0 <= k < |b|
      ensures b[k] in b && b[k].cid == cid && b[k].pos < |ids|
    {
    }
    AscendingJoin(a, b, cid, offsets, |ids|);
  }

  lemma ExactlyJoin(a: seq<Record>, b: seq<Record>, realIds: seq<nat>, offsets: seq<nat>, nlist: nat, nbase: nat,
                    c: nat)
    requires Partitioned(realIds, offsets, nlist) && c < nlist && Exactly(a, realIds, offsets, nbase, c)
    requires b == ClusterRecords(realIds[offsets[c]..offsets[c + 1]], c, nbase, offsets[c + 1] - offsets[c])
    ensures Exactly(a + b, realIds, offsets, nbase, c + 1)
  {
    hide Names, ClusterRecords;
    ClusterRecordsAre(realIds[offsets[c]..offsets[c + 1]], c, nbase, offsets[c + 1] - offsets[c]);
    forall rec: Record
      ensures rec in a + b <==> Names(rec, realIds, offsets, c + 1) && rec.gid < nbase
    {
      NamesStep(rec, realIds, offsets, nlist, c);
    }
  }

  lemma {:induction false} AllRecordsAre(realIds: seq<nat>, offsets: seq<nat>, nlist: nat, nbase: nat, c: nat)
    requires Partitioned(realIds, offsets, nlist) && c <= nlist && AllReadable(realIds, offsets, c)
    ensures Exactly(AllRecords(realIds, offsets, nbase, c), realIds, offsets, nbase, c)
    ensures Ascending(AllRecords(realIds, offsets, nbase, c), offsets, offsets[c])
  {
    hide *;
    if c == 0 {
      NoRecords(realIds, offsets, nlist, nbase);
    } else {
      PartitionReadable(realIds, offsets, nlist, c - 1);
      NextCluster(realIds, offsets, nbase, c - 1);
      AllRecordsAre(realIds, offsets, nlist, nbase, c - 1);
      AllRecordsStep(AllRecords(realIds, offsets, nbase, c - 1), realIds, offsets, nlist, nbase, c - 1);
    }
  }

  lemma NoRecords(realIds: seq<nat>, offsets: seq<nat>, nlist: nat, nbase: nat)
    requires Partitioned(realIds, offsets, nlist)
    ensures AllRecords(realIds, offsets, nbase, 0) == [] && |offsets| == nlist + 1
    ensures Exactly([], realIds, offsets, nbase, 0) && Ascending([], offsets, offsets[0])
  {
  }

  lemma AllRecordsStep(a: seq<Record>, realIds: seq<nat>, offsets: seq<nat>, nlist: nat, nbase: nat, cid: nat)
    requires Partitioned(realIds, offsets, nlist) && cid < nlist
    requires Exactly(a, realIds, offsets, nbase, cid) && Ascending(a, offsets, offsets[cid])
    ensures var ids := realIds[offsets[cid]..offsets[cid + 1]];
      var r := a + ClusterRecords(ids, cid, nbase, |ids|);
      Exactly(r, realIds, offsets, nbase, cid + 1) && Ascending(r, offsets, offsets[cid + 1])
  {
    hide Ascending, Exactly, ClusterRecords;
    var ids := realIds[offsets[cid]..offsets[cid + 1]];
    AscendingStep(a, ids, cid, nbase, offsets);
    ExactlyJoin(a, ClusterRecords(ids, cid, nbase, |ids|), realIds, offsets, nlist, nbase, cid);
  }

  lemma ExactDistinct(log: seq<Record>, realIds: seq<nat>, offsets: seq<nat>, nbase: nat, c: nat, hi: nat)
    requires Distinct(realIds) && Exactly(log, realIds, offsets, nbase, c) && Ascending(log, offsets, hi)
    ensures DistinctIds(log)
  {
    forall j, k | 0 <= j < k < |log|
      ensures log[j].gid != log[k].gid
    {
      assert log[j] in log && log[k] in log;
      assert Names(log[j], realIds, offsets, c) && Names(log[k], realIds, offsets, c);
    }
  }

  // Some node has this id.
  ghost predicate NodeId(realIds: seq<nat>, offsets: seq<nat>, nlist: nat, nbase: nat, gid: nat) {
    gid < nbase && exists rec: Record :: Names(rec, realIds, offsets, nlist) && rec.gid == gid
  }

  // The tables give exactly the nodes of the bucket: each at its slot, and nothing in other slots.
  ghost predicate Inverts(realIds: seq<nat>, offsets: seq<nat>, nlist: nat, nbase: nat, b: nat, size: nat,
                          r: LoadResult)
    requires size > 0
  {
    && r.Loaded? && |r.cids| == |r.poss|
    && (forall rec | Names(rec, realIds, offsets, nlist) && rec.gid < nbase && BucketIndex(rec.gid, size) == b ::
          At(rec, b * size, r.cids, r.poss))
    && forall i | 0 <= i < |r.cids| && r.cids[i] != MISSING_CID :: NodeId(realIds, offsets, nlist, nbase, b * size + i)
  }

  // No old records are in the way: some node falls in the bucket, or its file was absent or empty.
  ghost predicate CleanBucket(realIds: seq<nat>, offsets: seq<nat>, nlist: nat, nbase: nat, found: Disk, b: nat,
                              size: nat)
    requires size > 0
  {
    b !in found || found[b] == [] ||
    exists rec :: Names(rec, realIds, offsets, nlist) && rec.gid < nbase && BucketIndex(rec.gid, size) == b
  }

  // End to end: for an id table of distinct ids, any directory found and any bucket, the load gives
  // back exactly the cluster and position of every id of the bucket if and only if no old records are
  // in the way and, in strict mode, every id the bucket covers is some node's.
  lemma BucketRoundTrip(realIds: seq<nat>, offsets: seq<nat>, nlist: nat, nbase: nat, size: nat,
                        found: Disk, disk: Disk, b: nat, strict: bool, r: LoadResult)
    requires size > 0 && Distinct(realIds) && Partitioned(realIds, offsets, nlist) && nlist <= MISSING_CID
    requires b in found ==> Stored(found[b])
    requires Delivered(disk, found, AllRecords(realIds, offsets, nbase, nlist), BucketCount(nbase, size), size)
    requires b < BucketCount(nbase, size) && LoadedFrom(disk, b, nbase, size, strict, r)
    ensures Inverts(realIds, offsets, nlist, nbase, b, size, r) <==>
      && CleanBucket(realIds, offsets, nlist, nbase, found, b, size)
      && (strict ==> forall gid: nat | InSpan(gid, b, nbase, size) :: NodeId(realIds, offsets, nlist, nbase, gid))
  {
    hide BucketIndex, BucketCount, BucketOf, LoadedFrom, Delivered, Ascending, Readable, Recovered, BucketLen,
      AllRecords, Inverts, Distinct, DistinctIds, Clean, CleanBucket, HasId, NodeId, Partitioned;
    var log := AllRecords(realIds, offsets, nbase, nlist);
    AllRecordsAre(realIds, offsets, nlist, nbase, nlist);
    ExactDistinct(log, realIds, offsets, nbase, nlist, offsets[nlist]);
    forall k | 0 <= k < |log|
      ensures log[k].gid < nbase && log[k].cid < MISSING_CID
    {
      assert log[k] in log;
    }
    LoadRecoversIff(log, disk, found, b, nbase, size, strict, r);
    RecoveredInverts(log, realIds, offsets, nlist, nbase, b, size, r);
    CleanIff(log, realIds, offsets, nlist, nbase, found, b, size);
    forall gid: nat
      ensures HasId(log, gid) <==> NodeId(realIds, offsets, nlist, nbase, gid)
    {
      LoggedIds(log, realIds, offsets, nlist, nbase, gid);
    }
  }

  lemma LoggedIds(log: seq<Record>, realIds: seq<nat>, offsets: seq<nat>, nlist: nat, nbase: nat, gid: nat)
    requires Exactly(log, realIds, offsets, nbase, nlist)
    ensures HasId(log, gid) <==> NodeId(realIds, offsets, nlist, nbase, gid)
  {
    hide Names;
    if HasId(log, gid) {
      var k :| 0 <= k < |log| && log[k].gid == gid;
      assert log[k] in log;
    }
    if NodeId(realIds, offsets, nlist, nbase, gid) {
      var rec :| Names(rec, realIds, offsets, nlist) && rec.gid == gid;
      assert rec in log;
    }
  }

  lemma CleanIff(log: seq<Record>, realIds: seq<nat>, offsets: seq<nat>, nlist: nat, nbase: nat, found: Disk, b: nat,
                 size: nat)
    requires size > 0 && Exactly(log, realIds, offsets, nbase, nlist)
    ensures Clean(log, found, b, size) <==> CleanBucket(realIds, offsets, nlist, nbase, found, b, size)
  {
    hide Names, BucketIndex;
    ShareMembers(log, b, size);
    var share := BucketOf(log, b, size);
    if share != [] {
      assert share[0] in share;
    }
  }

  lemma RecoveredInverts(log: seq<Record>, realIds: seq<nat>, offsets: seq<nat>, nlist: nat, nbase: nat,
                         b: nat, size: nat, r: LoadResult)
    requires size > 0 && Exactly(log, realIds, offsets, nbase, nlist)
    ensures Recovered(log, b, size, r) <==> Inverts(realIds, offsets, nlist, nbase, b, size, r)
  {
    hide BucketIndex, At, Names, HasId, NodeId;
    forall gid: nat
      ensures HasId(log, gid) <==> NodeId(realIds, offsets, nlist, nbase, gid)
    {
      LoggedIds(log, realIds, offsets, nlist, nbase, gid);
    }
    if r.Loaded? {
      assert forall rec | rec in log :: rec.gid < nbase;
    }
  }
}
