/** What the read-only scans of the mapped and reduced results return, as
    functions of the table contents. Each index range is the run of rows
    whose index key matches the sought key; the checks the code repeats on
    every row of the range are the filters on top of it. */
module Lookups {
  import opened Common
  import opened Schema

  function MappedInfo(r: MappedRow, loadData: bool): MappedResultInfo
  {
    MappedResultInfo(r.reduceKey, r.bucket, r.etag, r.timestamp,
                     if loadData then Some(r.data) else None, |r.data|, NoSource)
  }

  function ReducedInfo(r: ReducedRow, loadData: bool): MappedResultInfo
  {
    MappedResultInfo(r.reduceKey, r.bucket, r.etag, r.timestamp,
                     if loadData then Some(r.data) else None, |r.data|, NoSource)
  }

  function MappedInfoOf(loadData: bool): MappedRow -> MappedResultInfo
  {
    (r: MappedRow) => MappedInfo(r, loadData)
  }

  // ---- level 0: mapped results of one bucket ----

  /** Index by_view_bucket_and_hashed_reduce_key, seeked at (view, bucket, hash). */
  function MappedBucketRange(env: Env, view: string, bucket: int, key: string): MappedRow -> bool
  {
    (r: MappedRow) => IndexKey(env, r.view) == IndexKey(env, view) && r.bucket == bucket && r.hash == env.hashOf(key)
  }

  /** The per-row re-check: view ignoring case, bucket, and the key compared ordinally. */
  function MappedBucketHit(env: Env, view: string, bucket: int, key: string): MappedRow -> bool
  {
    (r: MappedRow) => SameName(env, r.view, view) && r.bucket == bucket && r.reduceKey == key
  }

  /** The rows of the range that pass the re-check, as records. */
  function MappedBucketHits(env: Env, mapped: seq<MappedRow>, view: string, key: string, bucket: int, loadData: bool): seq<MappedResultInfo>
  {
    FilterMap(Filter(mapped, MappedBucketRange(env, view, bucket, key)),
              MappedBucketHit(env, view, bucket, key), MappedInfoOf(loadData))
  }

  /** GetMappedResultsForBucket: the matching rows, or one placeholder when none match. */
  function MappedForBucket(env: Env, mapped: seq<MappedRow>, view: string, key: string, bucket: int, loadData: bool): (r: seq<MappedResultInfo>)
    ensures |r| >= 1
    ensures forall y :: y in r ==> y.reduceKey == key && y.bucket == bucket
    ensures forall x :: x in mapped && x.hash == env.hashOf(x.reduceKey) && MappedBucketHit(env, view, bucket, key)(x)
              ==> MappedInfo(x, loadData) in r
    ensures (forall x :: x in mapped ==> !MappedBucketHit(env, view, bucket, key)(x)) ==> r == [Placeholder(key, bucket)]
  {
    var hits := MappedBucketHits(env, mapped, view, key, bucket, loadData);
    var range := Filter(mapped, MappedBucketRange(env, view, bucket, key));
    assert forall x :: x in mapped && x.hash == env.hashOf(x.reduceKey) && MappedBucketHit(env, view, bucket, key)(x)
             ==> x in range;
    assert forall y :: y in hits ==> exists x :: x in mapped && MappedBucketHit(env, view, bucket, key)(x) && y == MappedInfo(x, loadData) by {
      forall y | y in hits ensures exists x :: x in mapped && MappedBucketHit(env, view, bucket, key)(x) && y == MappedInfo(x, loadData) {
        FilterMapSound(range, MappedBucketHit(env, view, bucket, key), MappedInfoOf(loadData), y);
      }
    }
    assert hits != [] ==> hits[0] in hits;
    if hits == [] then [Placeholder(key, bucket)] else hits
  }

  /** Hash collisions are skipped: every record is the placeholder or comes
      from a mapped row of the view, bucket and (ordinally equal) key. */
  lemma MappedForBucketSound(env: Env, mapped: seq<MappedRow>, view: string, key: string, bucket: int, loadData: bool, y: MappedResultInfo)
    requires y in MappedForBucket(env, mapped, view, key, bucket, loadData)
    ensures y == Placeholder(key, bucket)
            || exists x :: x in mapped && MappedBucketHit(env, view, bucket, key)(x) && y == MappedInfo(x, loadData)
  {
    var hits := MappedBucketHits(env, mapped, view, key, bucket, loadData);
    var range := Filter(mapped, MappedBucketRange(env, view, bucket, key));
    if y in hits {
      FilterMapSound(range, MappedBucketHit(env, view, bucket, key), MappedInfoOf(loadData), y);
    }
  }

  // ---- levels 1 and 2: reduced results of one bucket ----

  /** Index by_view_level_bucket_and_hashed_reduce_key, seeked at (view, level, bucket, hash). */
  function ReducedBucketRange(env: Env, view: string, level: int, bucket: int, key: string): ReducedRow -> bool
  {
    (r: ReducedRow) => IndexKey(env, r.view) == IndexKey(env, view) && r.level == level && r.bucket == bucket && r.hash == env.hashOf(key)
  }

  /** A row the scan returns: in the seeked range, with the key equal
      ordinally (the view is not compared again). */
  function ReducedBucketHit(env: Env, view: string, level: int, bucket: int, key: string): ReducedRow -> bool
  {
    (r: ReducedRow) => ReducedBucketRange(env, view, level, bucket, key)(r) && r.reduceKey == key
  }

  /** The scan of the range from position i: it stops at the first row of
      another bucket and skips rows whose key differs ordinally. */
  function ReducedHitsFrom(range: seq<ReducedRow>, i: nat, key: string, bucket: int, loadData: bool): (r: seq<MappedResultInfo>)
    decreases |range| - i
    ensures forall y :: y in r ==> y.reduceKey == key && y.bucket == bucket
    ensures forall y :: y in r ==> exists x :: x in range && x.reduceKey == key && x.bucket == bucket && y == ReducedInfo(x, loadData)
  {
    if i >= |range| || range[i].bucket != bucket then []
    else (if range[i].reduceKey == key then [ReducedInfo(range[i], loadData)] else [])
         + ReducedHitsFrom(range, i + 1, key, bucket, loadData)
  }

  /** One row of the scan: the scan ends at the end of the range and at a
      row of another bucket, and otherwise keeps the row when its key matches. */
  lemma ReducedHitsStep(range: seq<ReducedRow>, i: nat, key: string, bucket: int, loadData: bool)
    ensures i >= |range| ==> ReducedHitsFrom(range, i, key, bucket, loadData) == []
    ensures i < |range| && range[i].bucket != bucket ==> ReducedHitsFrom(range, i, key, bucket, loadData) == []
    ensures i < |range| && range[i].bucket == bucket && range[i].reduceKey != key ==>
      ReducedHitsFrom(range, i, key, bucket, loadData) == ReducedHitsFrom(range, i + 1, key, bucket, loadData)
    ensures i < |range| && range[i].bucket == bucket && range[i].reduceKey == key ==>
      ReducedHitsFrom(range, i, key, bucket, loadData) == [ReducedInfo(range[i], loadData)] + ReducedHitsFrom(range, i + 1, key, bucket, loadData)
  {
  }

  /** GetReducedResultsForBucket: the matching rows, or one placeholder. */
  function ReducedForBucket(env: Env, reduced: seq<ReducedRow>, view: string, key: string, level: int, bucket: int, loadData: bool): (r: seq<MappedResultInfo>)
    ensures |r| >= 1
    ensures forall y :: y in r ==> y.reduceKey == key && y.bucket == bucket
  {
    var hits := ReducedHitsFrom(Filter(reduced, ReducedBucketRange(env, view, level, bucket, key)), 0, key, bucket, loadData);
    if hits == [] then [Placeholder(key, bucket)] else hits
  }

  /** When no row of the range has the key, the result is exactly one placeholder. */
  lemma ReducedForBucketPlaceholder(env: Env, reduced: seq<ReducedRow>, view: string, key: string, level: int, bucket: int, loadData: bool)
    requires forall x :: x in reduced ==> !ReducedBucketHit(env, view, level, bucket, key)(x)
    ensures ReducedForBucket(env, reduced, view, key, level, bucket, loadData) == [Placeholder(key, bucket)]
  {
    var hits := ReducedHitsFrom(Filter(reduced, ReducedBucketRange(env, view, level, bucket, key)), 0, key, bucket, loadData);
    if hits != [] {
      assert hits[0] in hits;
    }
  }

  /** Hash collisions are skipped: every record is the placeholder, given
      only when no row qualifies, or comes from a reduce row of the range
      whose key matches ordinally. */
  lemma ReducedForBucketSound(env: Env, reduced: seq<ReducedRow>, view: string, key: string, level: int, bucket: int,
                              loadData: bool, y: MappedResultInfo)
    requires y in ReducedForBucket(env, reduced, view, key, level, bucket, loadData)
    ensures || (y == Placeholder(key, bucket) && forall x :: x in reduced ==> !ReducedBucketHit(env, view, level, bucket, key)(x))
            || exists x :: x in reduced && ReducedBucketHit(env, view, level, bucket, key)(x) && y == ReducedInfo(x, loadData)
  {
    var range := Filter(reduced, ReducedBucketRange(env, view, level, bucket, key));
    var hits := ReducedHitsFrom(range, 0, key, bucket, loadData);
    if hits == [] {
      forall x | x in reduced && ReducedBucketHit(env, view, level, bucket, key)(x) ensures false {
        assert x in range;
        var k :| 0 <= k < |range| && range[k] == x;
        ReducedHitsComplete(range, 0, key, bucket, loadData, k);
      }
    } else {
      var x :| x in range && x.reduceKey == key && x.bucket == bucket && y == ReducedInfo(x, loadData);
      assert ReducedBucketHit(env, view, level, bucket, key)(x);
    }
  }

  /** Every matching reduced row of the bucket is found (the early stop at
      another bucket never cuts the range short, because the range is
      already restricted to the bucket). */
  lemma {:induction false} ReducedHitsComplete(range: seq<ReducedRow>, i: nat, key: string, bucket: int, loadData: bool, k: nat)
    requires forall x :: x in range ==> x.bucket == bucket
    requires i <= k < |range| && range[k].reduceKey == key
    ensures ReducedInfo(range[k], loadData) in ReducedHitsFrom(range, i, key, bucket, loadData)
    decreases k - i
  {
    assert range[i] in range;
    if i < k {
      ReducedHitsComplete(range, i + 1, key, bucket, loadData, k);
    }
  }

  lemma ReducedForBucketComplete(env: Env, reduced: seq<ReducedRow>, view: string, key: string, level: int, bucket: int, loadData: bool, x: ReducedRow)
    requires x in reduced && x.hash == env.hashOf(x.reduceKey)
    requires SameName(env, x.view, view) && x.level == level && x.bucket == bucket && x.reduceKey == key
    ensures ReducedInfo(x, loadData) in ReducedForBucket(env, reduced, view, key, level, bucket, loadData)
  {
    var range := Filter(reduced, ReducedBucketRange(env, view, level, bucket, key));
    assert x in range;
    var k :| 0 <= k < |range| && range[k] == x;
    ReducedHitsComplete(range, 0, key, bucket, loadData, k);
  }

  /** GetResultsForBucket: level 0 reads mapped rows, levels 1 and 2 read
      reduced rows, any other level is an invalid argument. */
  function ResultsForBucket(env: Env, mapped: seq<MappedRow>, reduced: seq<ReducedRow>,
                            view: string, level: int, key: string, bucket: int, loadData: bool): (r: Outcome<seq<MappedResultInfo>>)
    ensures r.Fail? <==> level !in {0, 1, 2}
    ensures r.Fail? ==> r.error == InvalidLevel(level)
    ensures r.Ok? ==> |r.value| >= 1 && forall y :: y in r.value ==> y.reduceKey == key && y.bucket == bucket
  {
    if level == 0 then Ok(MappedForBucket(env, mapped, view, key, bucket, loadData))
    else if level == 1 || level == 2 then Ok(ReducedForBucket(env, reduced, view, key, level, bucket, loadData))
    else Fail(InvalidLevel(level))
  }

  // ---- GetMappedBuckets and GetMappedResults: index by_view_and_hashed_reduce_key ----

  function MappedKeyRange(env: Env, view: string, key: string): MappedRow -> bool
  {
    (r: MappedRow) => IndexKey(env, r.view) == IndexKey(env, view) && r.hash == env.hashOf(key)
  }

  /** GetMappedBuckets compares the key ignoring case (OrdinalIgnoreCase). */
  function MappedBucketsHit(env: Env, view: string, key: string): MappedRow -> bool
  {
    (r: MappedRow) => SameName(env, r.view, view) && SameName(env, r.reduceKey, key)
  }

  function BucketOf(r: MappedRow): int { r.bucket }

  /** GetMappedBuckets: one bucket per matching mapped row, duplicates kept. */
  function MappedBuckets(env: Env, mapped: seq<MappedRow>, view: string, key: string): (r: seq<int>)
    ensures forall x :: x in mapped && x.hash == env.hashOf(key) && MappedBucketsHit(env, view, key)(x) ==> x.bucket in r
  {
    var range := Filter(mapped, MappedKeyRange(env, view, key));
    assert forall x :: x in mapped && x.hash == env.hashOf(key) && MappedBucketsHit(env, view, key)(x) ==> x in range;
    FilterMap(range, MappedBucketsHit(env, view, key), BucketOf)
  }

  /** Every bucket comes from a mapped row of the view and key (ignoring case). */
  lemma MappedBucketsSound(env: Env, mapped: seq<MappedRow>, view: string, key: string, b: int)
    requires b in MappedBuckets(env, mapped, view, key)
    ensures exists x :: x in mapped && MappedKeyRange(env, view, key)(x) && MappedBucketsHit(env, view, key)(x) && b == x.bucket
  {
    FilterMapSound(Filter(mapped, MappedKeyRange(env, view, key)), MappedBucketsHit(env, view, key), BucketOf, b);
  }

  /** GetMappedResults compares the key ordinally. */
  function MappedKeyHit(env: Env, view: string, key: string): MappedRow -> bool
  {
    (r: MappedRow) => SameName(env, r.view, view) && r.reduceKey == key
  }

  function MappedResultsOfKey(env: Env, mapped: seq<MappedRow>, view: string, key: string, loadData: bool): (r: seq<MappedResultInfo>)
    ensures forall y :: y in r ==> y.reduceKey == key
    ensures forall x :: x in mapped && x.hash == env.hashOf(x.reduceKey) && MappedKeyHit(env, view, key)(x) ==> MappedInfo(x, loadData) in r
  {
    var range := Filter(mapped, MappedKeyRange(env, view, key));
    assert forall x :: x in mapped && x.hash == env.hashOf(x.reduceKey) && MappedKeyHit(env, view, key)(x) ==> x in range;
    assert forall y :: y in FilterMap(range, MappedKeyHit(env, view, key), MappedInfoOf(loadData)) ==> y.reduceKey == key by {
      forall y | y in FilterMap(range, MappedKeyHit(env, view, key), MappedInfoOf(loadData)) ensures y.reduceKey == key {
        FilterMapSound(range, MappedKeyHit(env, view, key), MappedInfoOf(loadData), y);
      }
    }
    FilterMap(range, MappedKeyHit(env, view, key), MappedInfoOf(loadData))
  }

  /** GetMappedResults: the matching rows of every requested key, key by key. */
  function MappedResults(env: Env, mapped: seq<MappedRow>, view: string, keys: seq<string>, loadData: bool): (r: seq<MappedResultInfo>)
    ensures forall y :: y in r ==> y.reduceKey in keys
  {
    if |keys| == 0 then []
    else
      var r0 := MappedResults(env, mapped, view, keys[..|keys| - 1], loadData);
      assert forall k :: k in keys[..|keys| - 1] ==> k in keys;
      r0 + MappedResultsOfKey(env, mapped, view, keys[|keys| - 1], loadData)
  }

  /** Reading one more requested key appends that key's records. */
  lemma MappedResultsStep(env: Env, mapped: seq<MappedRow>, view: string, keys: seq<string>, k: nat, loadData: bool)
    requires k < |keys|
    ensures MappedResults(env, mapped, view, keys[..k + 1], loadData)
      == MappedResults(env, mapped, view, keys[..k], loadData) + MappedResultsOfKey(env, mapped, view, keys[k], loadData)
  {
    var ks := keys[..k + 1];
    assert ks[..|ks| - 1] == keys[..k];
    assert ks[|ks| - 1] == keys[k];
  }

  /** Hash collisions are skipped: every record comes from a mapped row of
      the view (ignoring case) whose key is one of the requested keys,
      compared ordinally, and that lies in that key's index range. */
  lemma {:induction false} MappedResultsSound(env: Env, mapped: seq<MappedRow>, view: string, keys: seq<string>, loadData: bool,
                                              y: MappedResultInfo)
    requires y in MappedResults(env, mapped, view, keys, loadData)
    ensures exists x :: && x in mapped && x.reduceKey in keys && MappedKeyRange(env, view, x.reduceKey)(x)
                        && SameName(env, x.view, view) && y == MappedInfo(x, loadData)
  {
    var last := keys[|keys| - 1];
    var front := keys[..|keys| - 1];
    var range := Filter(mapped, MappedKeyRange(env, view, last));
    if y in MappedResults(env, mapped, view, front, loadData) {
      MappedResultsSound(env, mapped, view, front, loadData, y);
      var x :| && x in mapped && x.reduceKey in front && MappedKeyRange(env, view, x.reduceKey)(x)
               && SameName(env, x.view, view) && y == MappedInfo(x, loadData);
      assert x.reduceKey in keys;
    } else {
      assert y in FilterMap(range, MappedKeyHit(env, view, last), MappedInfoOf(loadData));
      FilterMapSound(range, MappedKeyHit(env, view, last), MappedInfoOf(loadData), y);
      var x :| x in range && MappedKeyHit(env, view, last)(x) && y == MappedInfoOf(loadData)(x);
      assert x.reduceKey == last && last in keys;
    }
  }

  lemma {:induction false} MappedResultsComplete(env: Env, mapped: seq<MappedRow>, view: string, keys: seq<string>, loadData: bool, x: MappedRow)
    requires x in mapped && x.hash == env.hashOf(x.reduceKey)
    requires SameName(env, x.view, view) && x.reduceKey in keys
    ensures MappedInfo(x, loadData) in MappedResults(env, mapped, view, keys, loadData)
  {
    var last := keys[|keys| - 1];
    if x.reduceKey == last {
      assert MappedKeyHit(env, view, last)(x);
    } else {
      assert x.reduceKey in keys[..|keys| - 1];
      MappedResultsComplete(env, mapped, view, keys[..|keys| - 1], loadData, x);
    }
  }

  // ---- GetKeysStats: index by_view of ReduceKeysCounts ----

  function CountsViewRange(env: Env, view: string): KeyRow<int> -> bool
  {
    (r: KeyRow<int>) => IndexKey(env, r.view) == IndexKey(env, view)
  }

  function KeyAndCount(r: KeyRow<int>): ReduceKeyAndCount
  {
    ReduceKeyAndCount(r.value, r.reduceKey)
  }

  function Min(a: int, b: int): int { if a < b then a else b }

  function Max(a: int, b: int): int { if a < b then b else a }

  /** GetKeysStats: the counter rows of the view's range from position
      `start` (a negative start counts as 0), at most `pageSize` of them but
      at least one, since the page is a do/while loop. */
  function KeysStats(env: Env, counts: seq<KeyRow<int>>, view: string, start: int, pageSize: int): (r: seq<ReduceKeyAndCount>)
    ensures |r| <= Max(pageSize, 1)
    ensures forall i :: 0 <= i < |r| ==> exists x :: x in counts && CountsViewRange(env, view)(x) && r[i] == KeyAndCount(x)
  {
    var range := Filter(counts, CountsViewRange(env, view));
    var s := Max(start, 0);
    if s >= |range| then []
    else
      var page := range[s .. Min(|range|, s + Max(pageSize, 1))];
      var r := seq(|page|, i requires 0 <= i < |page| => KeyAndCount(page[i]));
      assert forall i :: 0 <= i < |r| ==> page[i] in range && r[i] == KeyAndCount(page[i]);
      r
  }

  /** A page of `range` from a non-negative start: at most `size` entries,
      entry `i` read from row `start + i`. */
  ghost predicate IsPage(range: seq<KeyRow<int>>, start: nat, size: nat, page: seq<ReduceKeyAndCount>)
  {
    && |page| == (if start >= |range| then 0 else Min(|range|, start + size) - start)
    && forall i :: 0 <= i < |page| ==> start + i < |range| && page[i] == KeyAndCount(range[start + i])
  }

  /** A page is determined by its range, start and size. */
  lemma PageUnique(range: seq<KeyRow<int>>, start: nat, size: nat, p: seq<ReduceKeyAndCount>, q: seq<ReduceKeyAndCount>)
    requires IsPage(range, start, size, p) && IsPage(range, start, size, q)
    ensures p == q
  {
    assert forall i :: 0 <= i < |p| ==> p[i] == q[i];
  }

  /** The page as positions of the view's range: the rows from `start`
      on, one KeyAndCount per row. */
  lemma KeysStatsPage(env: Env, counts: seq<KeyRow<int>>, view: string, start: int, pageSize: int)
    ensures IsPage(Filter(counts, CountsViewRange(env, view)), Max(start, 0), Max(pageSize, 1), KeysStats(env, counts, view, start, pageSize))
  {
  }

  /** Two consecutive pages of one range make up the page of their joint size. */
  lemma PagesCompose(range: seq<KeyRow<int>>, start: nat, a: nat, b: nat, p: seq<ReduceKeyAndCount>,
                     q: seq<ReduceKeyAndCount>, w: seq<ReduceKeyAndCount>)
    requires IsPage(range, start, a, p) && IsPage(range, start + a, b, q) && IsPage(range, start, a + b, w)
    ensures p + q == w
  {
    assert |p + q| == |w|;
    forall i | 0 <= i < |w|
      ensures (p + q)[i] == w[i]
    {
      if i >= |p| {
        assert (p + q)[i] == q[i - |p|];
      }
    }
  }

  /** Paging composes: reading `a` keys and then `b` more from where the
      first page ended yields the same keys as one page of `a + b`. */
  lemma KeysStatsPaging(env: Env, counts: seq<KeyRow<int>>, view: string, start: nat, a: nat, b: nat)
    requires a >= 1 && b >= 1
    ensures KeysStats(env, counts, view, start, a) + KeysStats(env, counts, view, start + a, b)
            == KeysStats(env, counts, view, start, a + b)
  {
    assert Max(start, 0) == start && Max(start + a, 0) == start + a;
    assert Max(a, 1) == a && Max(b, 1) == b && Max(a + b, 1) == a + b;
    KeysStatsPage(env, counts, view, start, a);
    KeysStatsPage(env, counts, view, start + a, b);
    KeysStatsPage(env, counts, view, start, a + b);
    PagesCompose(Filter(counts, CountsViewRange(env, view)), start, a, b, KeysStats(env, counts, view, start, a),
                 KeysStats(env, counts, view, start + a, b), KeysStats(env, counts, view, start, a + b));
  }

  // ---- GetMappedResultsReduceKeysAfter: index by_view_and_etag ----

  /** The rows at or after the given etag in the view's part of the index,
      oldest first (the cursor walks the etag-descending index backward). */
  function AfterRange(env: Env, view: string, lastEtag: nat): MappedRow -> bool
  {
    (r: MappedRow) => IndexKey(env, r.view) == IndexKey(env, view) && r.etag >= lastEtag
  }

  /** Whether `results` holds a record for `key`. */
  predicate HasKey(results: seq<MappedResultInfo>, key: string)
  {
    exists i :: 0 <= i < |results| && results[i].reduceKey == key
  }

  /** results[key] = info on a dictionary that keeps insertion order. */
  function Upsert(results: seq<MappedResultInfo>, info: MappedResultInfo): (r: seq<MappedResultInfo>)
    ensures |r| == if HasKey(results, info.reduceKey) then |results| else |results| + 1
    ensures info in r
    ensures forall i :: 0 <= i < |r| ==> r[i] == info || r[i] in results
    ensures forall i :: 0 <= i < |results| ==> results[i].reduceKey != info.reduceKey ==> results[i] in r
  {
    if |results| == 0 then [info]
    else if results[0].reduceKey == info.reduceKey then [info] + results[1..]
    else
      var rest := Upsert(results[1..], info);
      assert HasKey(results, info.reduceKey) <==> HasKey(results[1..], info.reduceKey) by {
        if HasKey(results, info.reduceKey) {
          var i :| 0 <= i < |results| && results[i].reduceKey == info.reduceKey;
          assert results[1..][i - 1].reduceKey == info.reduceKey;
        }
        if HasKey(results[1..], info.reduceKey) {
          var i :| 0 <= i < |results[1..]| && results[1..][i].reduceKey == info.reduceKey;
          assert results[i + 1].reduceKey == info.reduceKey;
        }
      }
      [results[0]] + rest
  }

  /** The records carry pairwise distinct keys. */
  ghost predicate DistinctKeys(results: seq<MappedResultInfo>)
  {
    forall i, j :: 0 <= i < j < |results| ==> results[i].reduceKey != results[j].reduceKey
  }

  lemma UpsertDistinct(results: seq<MappedResultInfo>, info: MappedResultInfo)
    requires DistinctKeys(results)
    ensures DistinctKeys(Upsert(results, info))
  {
    if |results| > 0 && results[0].reduceKey != info.reduceKey {
      UpsertDistinct(results[1..], info);
      var rest := Upsert(results[1..], info);
      forall j | 0 <= j < |rest| ensures rest[j].reduceKey != results[0].reduceKey {
        if rest[j] != info {
          var k :| 0 <= k < |results[1..]| && results[1..][k] == rest[j];
        }
      }
    }
  }

  /** The record GetMappedResultsReduceKeysAfter builds: it sets no bucket,
      so the bucket keeps its default 0. */
  function KeysAfterInfo(r: MappedRow, loadData: bool): MappedResultInfo
  {
    MappedResultInfo(r.reduceKey, 0, r.etag, r.timestamp,
                     if loadData then Some(r.data) else None, |r.data|, NoSource)
  }

  /** The keys present after an upsert are the earlier ones and the new one. */
  lemma UpsertKeys(results: seq<MappedResultInfo>, info: MappedResultInfo)
    ensures forall k :: HasKey(Upsert(results, info), k) <==> HasKey(results, k) || k == info.reduceKey
  {
    var r := Upsert(results, info);
    forall k ensures HasKey(r, k) <==> HasKey(results, k) || k == info.reduceKey {
      if k == info.reduceKey {
        var m :| 0 <= m < |r| && r[m] == info;
      } else {
        if HasKey(results, k) {
          var j :| 0 <= j < |results| && results[j].reduceKey == k;
          var m :| 0 <= m < |r| && r[m] == results[j];
        }
        if HasKey(r, k) {
          var j :| 0 <= j < |r| && r[j].reduceKey == k;
          var m :| 0 <= m < |results| && results[m] == r[j];
        }
      }
    }
  }

  /** On records with distinct keys, the new record displaces the one of its
      key: every other record has another key. */
  lemma {:induction false} UpsertReplaces(results: seq<MappedResultInfo>, info: MappedResultInfo)
    requires DistinctKeys(results)
    ensures forall y :: y in Upsert(results, info) && y != info ==> y.reduceKey != info.reduceKey
  {
    if |results| > 0 {
      var r := Upsert(results, info);
      if results[0].reduceKey == info.reduceKey {
        forall y | y in r && y != info ensures y.reduceKey != info.reduceKey {
          var j :| 0 <= j < |r| && r[j] == y;
          assert j > 0 && y == results[j];
        }
      } else {
        var tail := results[1..];
        assert DistinctKeys(tail) by {
          forall i, j | 0 <= i < j < |tail| ensures tail[i].reduceKey != tail[j].reduceKey {
            assert tail[i] == results[i + 1] && tail[j] == results[j + 1];
          }
        }
        UpsertReplaces(tail, info);
        assert r == [results[0]] + Upsert(tail, info);
      }
    }
  }

  /** The scan from position i of the etag range: it goes on while fewer than
      `take` distinct keys were gathered and the row's view is the requested
      one, compared ordinally; a later row of a key replaces the earlier. */
  function KeysAfterFrom(range: seq<MappedRow>, i: nat, view: string, loadData: bool, take: int,
                         results: seq<MappedResultInfo>): seq<MappedResultInfo>
    decreases |range| - i
  {
    if i < |range| && |results| < take && range[i].view == view
    then KeysAfterFrom(range, i + 1, view, loadData, take, Upsert(results, KeysAfterInfo(range[i], loadData)))
    else results
  }

  /** GetMappedResultsReduceKeysAfter. */
  function KeysAfter(env: Env, mapped: seq<MappedRow>, view: string, lastEtag: nat, loadData: bool, take: int): seq<MappedResultInfo>
  {
    KeysAfterFrom(Filter(mapped, AfterRange(env, view, lastEtag)), 0, view, loadData, take, [])
  }

  /** At most `take` records, one per key, each the record of a row of the
      requested view at or after the etag. */
  lemma {:induction false} KeysAfterFromShape(range: seq<MappedRow>, i: nat, view: string, loadData: bool, take: int,
                                              results: seq<MappedResultInfo>)
    requires DistinctKeys(results)
    requires |results| <= Max(take, 0)
    requires forall y :: y in results ==> exists x :: x in range && x.view == view && y == KeysAfterInfo(x, loadData)
    ensures var r := KeysAfterFrom(range, i, view, loadData, take, results);
      && DistinctKeys(r) && |r| <= Max(take, 0)
      && forall y :: y in r ==> exists x :: x in range && x.view == view && y == KeysAfterInfo(x, loadData)
    decreases |range| - i
  {
    if i < |range| && |results| < take && range[i].view == view {
      var info := KeysAfterInfo(range[i], loadData);
      var next := Upsert(results, info);
      UpsertDistinct(results, info);
      forall y | y in next ensures exists x :: x in range && x.view == view && y == KeysAfterInfo(x, loadData) {
        if y != info {
          var k :| 0 <= k < |next| && next[k] == y;
        }
      }
      KeysAfterFromShape(range, i + 1, view, loadData, take, next);
    }
  }

  lemma KeysAfterShape(env: Env, mapped: seq<MappedRow>, view: string, lastEtag: nat, loadData: bool, take: int)
    ensures var r := KeysAfter(env, mapped, view, lastEtag, loadData, take);
      && DistinctKeys(r) && |r| <= Max(take, 0)
      && forall y :: y in r ==> exists x :: x in mapped && x.view == view && x.etag >= lastEtag && y == KeysAfterInfo(x, loadData)
  {
    var range := Filter(mapped, AfterRange(env, view, lastEtag));
    KeysAfterFromShape(range, 0, view, loadData, take, []);
  }

  /** The number of rows the scan visits. */
  ghost function KeysAfterEnd(range: seq<MappedRow>, i: nat, view: string, loadData: bool, take: int,
                              results: seq<MappedResultInfo>): nat
    decreases |range| - i
  {
    if i < |range| && |results| < take && range[i].view == view
    then KeysAfterEnd(range, i + 1, view, loadData, take, Upsert(results, KeysAfterInfo(range[i], loadData)))
    else i
  }

  /** Row j is the last row of its key among the first e rows. */
  ghost predicate LastOfKey(range: seq<MappedRow>, j: nat, e: nat)
    requires j < e <= |range|
  {
    forall k :: j < k < e ==> range[k].reduceKey != range[j].reduceKey
  }

  /** `y` is the record of the last row of its key among the first e rows. */
  ghost predicate RecordOfLastRow(range: seq<MappedRow>, e: nat, loadData: bool, y: MappedResultInfo)
    requires e <= |range|
  {
    exists j :: 0 <= j < e && LastOfKey(range, j, e) && y == KeysAfterInfo(range[j], loadData)
  }

  /** Every record is the record of the last row of its key among the
      first e rows. */
  ghost predicate LastRecords(range: seq<MappedRow>, e: nat, loadData: bool, results: seq<MappedResultInfo>)
    requires e <= |range|
  {
    forall y :: y in results ==> RecordOfLastRow(range, e, loadData, y)
  }

  /** Every key of the first e rows has a record. */
  ghost predicate Covers(range: seq<MappedRow>, e: nat, results: seq<MappedResultInfo>)
    requires e <= |range|
  {
    forall j :: 0 <= j < e ==> HasKey(results, range[j].reduceKey)
  }

  /** The scan visits rows of the requested view, and stops only at the end
      of the range, at `take` records or at a row of another view. */
  lemma {:induction false} KeysAfterFromStops(range: seq<MappedRow>, i: nat, view: string, loadData: bool, take: int,
                                              results: seq<MappedResultInfo>)
    requires i <= |range|
    ensures var e := KeysAfterEnd(range, i, view, loadData, take, results);
      var r := KeysAfterFrom(range, i, view, loadData, take, results);
      && i <= e <= |range|
      && (forall j :: i <= j < e ==> range[j].view == view)
      && (e == |range| || |r| >= take || range[e].view != view)
    decreases |range| - i
  {
    if i < |range| && |results| < take && range[i].view == view {
      var next := Upsert(results, KeysAfterInfo(range[i], loadData));
      assert KeysAfterEnd(range, i, view, loadData, take, results) == KeysAfterEnd(range, i + 1, view, loadData, take, next);
      assert KeysAfterFrom(range, i, view, loadData, take, results) == KeysAfterFrom(range, i + 1, view, loadData, take, next);
      KeysAfterFromStops(range, i + 1, view, loadData, take, next);
    } else {
      assert KeysAfterEnd(range, i, view, loadData, take, results) == i;
      assert KeysAfterFrom(range, i, view, loadData, take, results) == results;
    }
  }

  /** One visited row keeps every record the record of the last row of its key. */
  lemma KeysAfterStepRecords(range: seq<MappedRow>, i: nat, loadData: bool, results: seq<MappedResultInfo>)
    requires i < |range| && DistinctKeys(results) && LastRecords(range, i, loadData, results)
    ensures LastRecords(range, i + 1, loadData, Upsert(results, KeysAfterInfo(range[i], loadData)))
  {
    var info := KeysAfterInfo(range[i], loadData);
    UpsertReplaces(results, info);
    forall y | y in Upsert(results, info) ensures RecordOfLastRow(range, i + 1, loadData, y) {
      if y == info {
        assert LastOfKey(range, i, i + 1);
      } else {
        assert RecordOfLastRow(range, i, loadData, y);
        var j :| 0 <= j < i && LastOfKey(range, j, i) && y == KeysAfterInfo(range[j], loadData);
        assert LastOfKey(range, j, i + 1);
      }
    }
  }

  /** One visited row keeps every key seen so far, and adds its own. */
  lemma KeysAfterStepCovers(range: seq<MappedRow>, i: nat, loadData: bool, results: seq<MappedResultInfo>)
    requires i < |range| && Covers(range, i, results)
    ensures Covers(range, i + 1, Upsert(results, KeysAfterInfo(range[i], loadData)))
  {
    UpsertKeys(results, KeysAfterInfo(range[i], loadData));
    forall j | 0 <= j < i + 1 ensures HasKey(Upsert(results, KeysAfterInfo(range[i], loadData)), range[j].reduceKey) {
      if j < i {
        assert HasKey(results, range[j].reduceKey);
      }
    }
  }

  lemma {:induction false} KeysAfterFromRecords(range: seq<MappedRow>, i: nat, view: string, loadData: bool, take: int,
                                                results: seq<MappedResultInfo>)
    requires i <= |range| && DistinctKeys(results) && LastRecords(range, i, loadData, results)
    ensures KeysAfterEnd(range, i, view, loadData, take, results) <= |range|
    ensures LastRecords(range, KeysAfterEnd(range, i, view, loadData, take, results), loadData,
                        KeysAfterFrom(range, i, view, loadData, take, results))
    decreases |range| - i
  {
    if i < |range| && |results| < take && range[i].view == view {
      var next := Upsert(results, KeysAfterInfo(range[i], loadData));
      assert KeysAfterEnd(range, i, view, loadData, take, results) == KeysAfterEnd(range, i + 1, view, loadData, take, next);
      assert KeysAfterFrom(range, i, view, loadData, take, results) == KeysAfterFrom(range, i + 1, view, loadData, take, next);
      KeysAfterStepRecords(range, i, loadData, results);
      UpsertDistinct(results, KeysAfterInfo(range[i], loadData));
      KeysAfterFromRecords(range, i + 1, view, loadData, take, next);
    } else {
      assert KeysAfterEnd(range, i, view, loadData, take, results) == i;
      assert KeysAfterFrom(range, i, view, loadData, take, results) == results;
    }
  }

  lemma {:induction false} KeysAfterFromCovers(range: seq<MappedRow>, i: nat, view: string, loadData: bool, take: int,
                                               results: seq<MappedResultInfo>)
    requires i <= |range| && Covers(range, i, results)
    ensures KeysAfterEnd(range, i, view, loadData, take, results) <= |range|
    ensures Covers(range, KeysAfterEnd(range, i, view, loadData, take, results),
                   KeysAfterFrom(range, i, view, loadData, take, results))
    decreases |range| - i
  {
    if i < |range| && |results| < take && range[i].view == view {
      var next := Upsert(results, KeysAfterInfo(range[i], loadData));
      assert KeysAfterEnd(range, i, view, loadData, take, results) == KeysAfterEnd(range, i + 1, view, loadData, take, next);
      assert KeysAfterFrom(range, i, view, loadData, take, results) == KeysAfterFrom(range, i + 1, view, loadData, take, next);
      KeysAfterStepCovers(range, i, loadData, results);
      KeysAfterFromCovers(range, i + 1, view, loadData, take, next);
    } else {
      assert KeysAfterEnd(range, i, view, loadData, take, results) == i;
      assert KeysAfterFrom(range, i, view, loadData, take, results) == results;
    }
  }

  /** The scan visits the range from its first row and stops only at its
      end, at `take` records, or at a row of another view (compared
      ordinally); each record is that of the last visited row of its key,
      and every visited row's key has a record. */
  lemma KeysAfterLastWins(env: Env, mapped: seq<MappedRow>, view: string, lastEtag: nat, loadData: bool, take: int)
    ensures var range := Filter(mapped, AfterRange(env, view, lastEtag));
      var e := KeysAfterEnd(range, 0, view, loadData, take, []);
      var r := KeysAfter(env, mapped, view, lastEtag, loadData, take);
      && e <= |range|
      && (forall j :: 0 <= j < e ==> range[j].view == view)
      && (e == |range| || |r| >= take || range[e].view != view)
      && LastRecords(range, e, loadData, r)
      && Covers(range, e, r)
  {
    var range := Filter(mapped, AfterRange(env, view, lastEtag));
    KeysAfterFromStops(range, 0, view, loadData, take, []);
    KeysAfterFromRecords(range, 0, view, loadData, take, []);
    KeysAfterFromCovers(range, 0, view, loadData, take, []);
  }
}
