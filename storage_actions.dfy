/** DocumentStorageActions over the five map/reduce tables: the cursor loops
    of the storage layer, each proved to compute what the specification
    functions of the other modules say. */
module StorageActions {
  import opened Common
  import opened Schema
  import opened Lookups
  import opened Counters
  import opened Queue
  import opened Deletes
  import opened Strategy
  import opened Debug

  /** Rows in etag order, every etag handed out, the hash of the row's key stored. */
  ghost predicate MappedTableOk(env: Env, mapped: seq<MappedRow>, lastEtag: nat)
  {
    && Ascending(mapped, MappedEtag)
    && (forall r :: r in mapped ==> 0 < r.etag <= lastEtag && r.hash == env.hashOf(r.reduceKey))
  }

  ghost predicate ReducedTableOk(env: Env, reduced: seq<ReducedRow>, lastEtag: nat)
  {
    && Ascending(reduced, ReducedEtag)
    && (forall r :: r in reduced ==> 0 < r.etag <= lastEtag && r.hash == env.hashOf(r.reduceKey))
  }

  ghost predicate ScheduledTableOk(env: Env, scheduled: seq<ScheduledRow>, lastEtag: nat)
  {
    && Ascending(scheduled, ScheduledEtag)
    && (forall r :: r in scheduled ==> 0 < r.etag <= lastEtag && r.hash == env.hashOf(r.reduceKey))
  }

  /** Deleting mapped rows keeps the table well formed. */
  lemma MappedSubtableOk(env: Env, table: seq<MappedRow>, rest: seq<MappedRow>, lastEtag: nat)
    requires MappedTableOk(env, table, lastEtag)
    requires Ascending(rest, MappedEtag) && forall x :: x in rest ==> x in table
    ensures MappedTableOk(env, rest, lastEtag)
  {
  }

  /** Deleting reduced rows keeps the table well formed. */
  lemma ReducedSubtableOk(env: Env, table: seq<ReducedRow>, rest: seq<ReducedRow>, lastEtag: nat)
    requires ReducedTableOk(env, table, lastEtag)
    requires Ascending(rest, ReducedEtag) && forall x :: x in rest ==> x in table
    ensures ReducedTableOk(env, rest, lastEtag)
  {
  }

  /** Deleting scheduled rows keeps the table well formed. */
  lemma ScheduledSubtableOk(env: Env, table: seq<ScheduledRow>, rest: seq<ScheduledRow>, lastEtag: nat)
    requires ScheduledTableOk(env, table, lastEtag)
    requires Ascending(rest, ScheduledEtag) && forall x :: x in rest ==> x in table
    ensures ScheduledTableOk(env, rest, lastEtag)
  {
  }

  /** Positioning a cursor on an index range: the rows of the table whose
      index key equals the one made, in the table's order. */
  method IndexRange<T>(table: seq<T>, inRange: T -> bool) returns (range: seq<T>)
    ensures range == Filter(table, inRange)
  {
    range := [];
    var i := 0;
    while i < |table|
      invariant 0 <= i <= |table|
      invariant range == Filter(table[..i], inRange)
    {
      FilterSnocAt(table, inRange, i);
      if inRange(table[i]) {
        range := range + [table[i]];
      }
      i := i + 1;
    }
    assert table[..i] == table;
  }

  /** HashSet<string>.Contains under the case-insensitive comparer. */
  method ContainsName(env: Env, names: seq<string>, x: string) returns (b: bool)
    ensures b == HasName(env, names, x)
  {
    var j := 0;
    while j < |names|
      invariant 0 <= j <= |names|
      invariant forall k :: 0 <= k < j ==> !SameName(env, x, names[k])
    {
      if SameName(env, x, names[j]) {
        return true;
      }
      j := j + 1;
    }
    return false;
  }

  /** The first loop of GetReduceTypesPerKeys: over the by_view range, skip
      rows of another view (ignoring case) and add each reduce key to the
      case-insensitive set. */
  method CollectScheduledKeys(env: Env, range: seq<ScheduledRow>, view: string) returns (keys: seq<string>)
    ensures keys == AddNames(env, [], FilterMap(range, SchedViewHit(env, view), ReduceKeyOf))
  {
    keys := [];
    var i := 0;
    while i < |range|
      invariant 0 <= i <= |range|
      invariant keys == AddNames(env, [], FilterMap(range[..i], SchedViewHit(env, view), ReduceKeyOf))
    {
      FilterMapStep(range, SchedViewHit(env, view), ReduceKeyOf, i);
      var x := range[i];
      if SameName(env, x.view, view) {
        var xs := FilterMap(range[..i], SchedViewHit(env, view), ReduceKeyOf);
        assert FilterMap(range[..i + 1], SchedViewHit(env, view), ReduceKeyOf) == xs + [x.reduceKey];
        AddNamesSnoc(env, [], xs, x.reduceKey);
        var present := ContainsName(env, keys, x.reduceKey);
        if !present {
          keys := keys + [x.reduceKey];
        }
        assert keys == AddNames(env, [], xs + [x.reduceKey]);
      } else {
        assert FilterMap(range[..i + 1], SchedViewHit(env, view), ReduceKeyOf) == FilterMap(range[..i], SchedViewHit(env, view), ReduceKeyOf);
      }
      i := i + 1;
    }
    assert range[..i] == range;
  }

  /** The do/while loop of GetKeysForIndexForDebug from entry `i`; the
      keys yielded so far are the contents of its HashSet. */
  method KeysWalk(env: Env, order: seq<MappedRow>, i0: nat, view: string, take: int) returns (keys: seq<string>)
    requires i0 < |order| && take > 0
    ensures keys == KeysScan(env, order, i0, view, take, [])
  {
    ghost var all := KeysScan(env, order, i0, view, take, []);
    keys := [];
    var i := i0;
    var left := take;
    while true
      invariant i < |order| && left > 0
      invariant KeysScan(env, order, i, view, left, keys) == all
      decreases |order| - i
    {
      var x := order[i];
      var act := KeysAction(env, view, keys, x);
      if act == Halt {
        break;
      }
      if act == Yield {
        keys := keys + [x.reduceKey];
        left := left - 1;
      }
      if !(i + 1 < |order| && left > 0) {
        break;
      }
      i := i + 1;
    }
  }

  /** The do/while loop of GetMappedResultsForDebug from entry `i`. */
  method MappedDebugWalk(env: Env, order: seq<MappedRow>, i0: nat, view: string, key: string, take: int)
    returns (infos: seq<MappedResultInfo>)
    requires i0 < |order| && take > 0
    ensures infos == ScanFrom(order, i0, MappedDebugStep(env, view, key), MappedDebugInfo, take)
  {
    ghost var step := MappedDebugStep(env, view, key);
    ghost var all := ScanFrom(order, i0, step, MappedDebugInfo, take);
    infos := [];
    var i := i0;
    var left := take;
    while true
      invariant i < |order| && left > 0
      invariant infos + ScanFrom(order, i, step, MappedDebugInfo, left) == all
      decreases |order| - i
    {
      var x := order[i];
      var act := MappedDebugStep(env, view, key)(x);
      if act == Halt {
        ScanFromHalt(order, i, step, MappedDebugInfo, left, infos, all);
        break;
      }
      if act == Yield {
        ScanFromYield(order, i, step, MappedDebugInfo, left, infos, all);
        infos := infos + [MappedDebugInfo(x)];
        left := left - 1;
      } else {
        ScanFromSkip(order, i, step, MappedDebugInfo, left, infos, all);
      }
      if !(i + 1 < |order| && left > 0) {
        break;
      }
      i := i + 1;
    }
  }

  /** The do/while loop of GetReducedResultsForDebug from entry `i`. */
  method ReducedDebugWalk(env: Env, order: seq<ReducedRow>, i0: nat, view: string, key: string, level: int, take: int)
    returns (infos: seq<MappedResultInfo>)
    requires i0 < |order| && take > 0
    ensures infos == ScanFrom(order, i0, ReducedDebugStep(env, view, level, key), ReducedDebugInfo, take)
  {
    ghost var step := ReducedDebugStep(env, view, level, key);
    ghost var all := ScanFrom(order, i0, step, ReducedDebugInfo, take);
    infos := [];
    var i := i0;
    var left := take;
    while true
      invariant i < |order| && left > 0
      invariant infos + ScanFrom(order, i, step, ReducedDebugInfo, left) == all
      decreases |order| - i
    {
      var x := order[i];
      var act := ReducedDebugStep(env, view, level, key)(x);
      if act == Halt {
        ScanFromHalt(order, i, step, ReducedDebugInfo, left, infos, all);
        break;
      }
      if act == Yield {
        ScanFromYield(order, i, step, ReducedDebugInfo, left, infos, all);
        infos := infos + [ReducedDebugInfo(x)];
        left := left - 1;
      } else {
        ScanFromSkip(order, i, step, ReducedDebugInfo, left, infos, all);
      }
      if !(i + 1 < |order| && left > 0) {
        break;
      }
      i := i + 1;
    }
  }

  /** Walking the rows of a table: those in the index range that pass the
      re-check are deleted, the others are kept, both in order. */
  method SplitRows<T>(rows: seq<T>, inRange: T -> bool, hit: T -> bool) returns (kept: seq<T>, deleted: seq<T>)
    ensures kept == Filter(rows, Not(And(inRange, hit)))
    ensures deleted == Filter(Filter(rows, inRange), hit)
  {
    kept := [];
    deleted := [];
    var i := 0;
    while i < |rows|
      invariant 0 <= i <= |rows|
      invariant kept == Filter(rows[..i], Not(And(inRange, hit)))
      invariant deleted == Filter(rows[..i], And(inRange, hit))
    {
      FilterSnocAt(rows, Not(And(inRange, hit)), i);
      FilterSnocAt(rows, And(inRange, hit), i);
      if inRange(rows[i]) && hit(rows[i]) {
        deleted := deleted + [rows[i]];
      } else {
        kept := kept + [rows[i]];
      }
      i := i + 1;
    }
    assert rows[..i] == rows;
    FilterFilter(rows, inRange, hit);
  }

  /** removed.Add of the (bucket, key) pair of each deleted row in turn. */
  method AddPairs(removed: seq<ReduceKeyAndBucket>, deleted: seq<MappedRow>) returns (r: seq<ReduceKeyAndBucket>)
    ensures r == AddAll(removed, PairsOf(deleted))
  {
    r := removed;
    var j := 0;
    while j < |deleted|
      invariant 0 <= j <= |deleted|
      invariant r == AddAll(removed, PairsOf(deleted[..j]))
    {
      var pair := ReduceKeyAndBucket(deleted[j].bucket, deleted[j].reduceKey);
      PairsOfSnoc(deleted, j);
      if pair !in r {
        r := r + [pair];
      }
      j := j + 1;
    }
    assert deleted[..j] == deleted;
  }

  /** deletedReduceKeys.Add of the key of each deleted row in turn. */
  method ReduceKeysOf(deleted: seq<MappedRow>) returns (keys: seq<string>)
    ensures keys == KeysOfRows(deleted)
  {
    keys := [];
    var j := 0;
    while j < |deleted|
      invariant 0 <= j <= |deleted|
      invariant keys == KeysOfRows(deleted[..j])
    {
      keys := keys + [deleted[j].reduceKey];
      j := j + 1;
    }
    assert deleted[..j] == deleted;
  }

  /** SeekGE: the position of the first row at or after the key made, or
      the end when there is none. */
  method SeekFirst<T>(order: seq<T>, seek: T -> bool) returns (i: nat)
    ensures i <= |order|
    ensures i < |order| <==> FirstWhere(order, seek, 0).Some?
    ensures i < |order| ==> FirstWhere(order, seek, 0) == Some(i)
  {
    i := 0;
    while i < |order| && !seek(order[i])
      invariant 0 <= i <= |order|
      invariant FirstWhere(order, seek, i) == FirstWhere(order, seek, 0)
    {
      i := i + 1;
    }
  }

  /** The walk of RemoveReduceResults from row i of the index: it stops at
      a row of another view or source bucket and picks the rows whose key
      matches ordinally. */
  method WalkRun(env: Env, order: seq<ReducedRow>, i: nat, view: string, sourceBucket: int, key: string)
    returns (doomed: seq<ReducedRow>)
    requires i <= |order|
    ensures doomed == RemovalWalk(env, order, i, view, sourceBucket, key)
  {
    ghost var all := RemovalWalk(env, order, i, view, sourceBucket, key);
    doomed := [];
    var j := i;
    while j < |order|
      invariant i <= j <= |order|
      invariant doomed + RemovalWalk(env, order, j, view, sourceBucket, key) == all
    {
      ghost var here := RemovalWalk(env, order, j, view, sourceBucket, key);
      ghost var rest := RemovalWalk(env, order, j + 1, view, sourceBucket, key);
      RemovalWalkStep(env, order, j, view, sourceBucket, key);
      var row := order[j];
      if !(SameName(env, row.view, view) && row.sourceBucket == sourceBucket) {
        assert !InRun(env, row, view, sourceBucket) && here == [];
        assert doomed + [] == doomed;
        return;
      }
      assert InRun(env, row, view, sourceBucket);
      j := j + 1;
      if row.reduceKey != key {
        assert here == [] + rest && [] + rest == rest;
        continue;
      }
      assert here == [row] + rest;
      assert doomed + here == (doomed + [row]) + rest;
      doomed := doomed + [row];
    }
    RemovalWalkStep(env, order, j, view, sourceBucket, key);
    assert doomed + [] == doomed;
  }

  /** GetMappedResultsForBucket: the range of (view, bucket, hash) with
      hash collisions skipped, or one placeholder record when nothing
      matched. */
  method MappedForBucketScan(env: Env, mapped: seq<MappedRow>, view: string, key: string, bucket: int, loadData: bool) returns (r: seq<MappedResultInfo>)
    ensures r == MappedForBucket(env, mapped, view, key, bucket, loadData)
  {
    var range := IndexRange(mapped, MappedBucketRange(env, view, bucket, key));
    if |range| == 0 {
      return [Placeholder(key, bucket)];
    }
    var hit := MappedBucketHit(env, view, bucket, key);
    r := [];
    var i := 0;
    while i < |range|
      invariant 0 <= i <= |range|
      invariant r == FilterMap(range[..i], hit, MappedInfoOf(loadData))
    {
      FilterMapStep(range, hit, MappedInfoOf(loadData), i);
      var row := range[i];
      i := i + 1;
      if !(SameName(env, row.view, view) && row.bucket == bucket && row.reduceKey == key) {
        continue;
      }
      r := r + [MappedInfo(row, loadData)];
    }
    assert range[..i] == range;
    if r == [] {
      r := [Placeholder(key, bucket)];
    }
  }

  /** GetReducedResultsForBucket: the range of (view, level, bucket, hash)
      up to the first row of another bucket, other keys skipped, or one
      placeholder record when nothing matched. */
  method ReducedForBucketScan(env: Env, reduced: seq<ReducedRow>, view: string, key: string, level: int, bucket: int, loadData: bool) returns (r: seq<MappedResultInfo>)
    ensures r == ReducedForBucket(env, reduced, view, key, level, bucket, loadData)
  {
    var range := IndexRange(reduced, ReducedBucketRange(env, view, level, bucket, key));
    r := [];
    var i := 0;
    while i < |range|
      invariant 0 <= i <= |range|
      invariant r + ReducedHitsFrom(range, i, key, bucket, loadData) == ReducedHitsFrom(range, 0, key, bucket, loadData)
    {
      ReducedHitsStep(range, i, key, bucket, loadData);
      var row := range[i];
      if row.bucket != bucket {
        assert r == ReducedHitsFrom(range, 0, key, bucket, loadData);
        break;
      }
      i := i + 1;
      if row.reduceKey != key {
        continue;
      }
      r := r + [ReducedInfo(row, loadData)];
    }
    ReducedHitsStep(range, i, key, bucket, loadData);
    assert r == ReducedHitsFrom(range, 0, key, bucket, loadData);
    if r == [] {
      r := [Placeholder(key, bucket)];
    }
  }

  /** GetResultsForBucket: level 0 reads mapped results, levels 1 and 2
      reduced results; any other level is an invalid argument. */
  method ResultsForBucketScan(env: Env, mapped: seq<MappedRow>, reduced: seq<ReducedRow>, view: string, level: int, key: string, bucket: int, loadData: bool) returns (r: Outcome<seq<MappedResultInfo>>)
    ensures r == ResultsForBucket(env, mapped, reduced, view, level, key, bucket, loadData)
  {
    if level == 0 {
      var rs := MappedForBucketScan(env, mapped, view, key, bucket, loadData);
      r := Ok(rs);
    } else if level == 1 || level == 2 {
      var rs := ReducedForBucketScan(env, reduced, view, key, level, bucket, loadData);
      r := Ok(rs);
    } else {
      r := Fail(InvalidLevel(level));
    }
  }

  /** GetMappedBuckets: the bucket of every row of the (view, hash) range
      whose view and key match ignoring case. */
  method MappedBucketsScan(env: Env, mapped: seq<MappedRow>, view: string, key: string) returns (r: seq<int>)
    ensures r == MappedBuckets(env, mapped, view, key)
  {
    var range := IndexRange(mapped, MappedKeyRange(env, view, key));
    var hit := MappedBucketsHit(env, view, key);
    r := [];
    var i := 0;
    while i < |range|
      invariant 0 <= i <= |range|
      invariant r == FilterMap(range[..i], hit, BucketOf)
    {
      FilterMapStep(range, hit, BucketOf, i);
      var row := range[i];
      i := i + 1;
      if !SameName(env, row.view, view) {
        continue;
      }
      if !SameName(env, row.reduceKey, key) {
        continue;
      }
      r := r + [row.bucket];
    }
    assert range[..i] == range;
  }

  /** GetMappedResults: key by key, the rows of the (view, hash) range
      whose view matches ignoring case and whose key matches ordinally. */
  method MappedResultsScan(env: Env, mapped: seq<MappedRow>, view: string, keys: seq<string>, loadData: bool) returns (r: seq<MappedResultInfo>)
    ensures r == MappedResults(env, mapped, view, keys, loadData)
  {
    r := [];
    var k := 0;
    while k < |keys|
      invariant 0 <= k <= |keys|
      invariant r == MappedResults(env, mapped, view, keys[..k], loadData)
    {
      var found := MappedKeyScan(env, mapped, view, keys[k], loadData);
      MappedResultsStep(env, mapped, view, keys, k, loadData);
      r := r + found;
      k := k + 1;
    }
    assert keys[..k] == keys;
  }

  /** The inner loop of GetMappedResults for one key: the rows of its range
      that survive the view and key re-checks. */
  method MappedKeyScan(env: Env, mapped: seq<MappedRow>, view: string, key: string, loadData: bool) returns (found: seq<MappedResultInfo>)
    ensures found == MappedResultsOfKey(env, mapped, view, key, loadData)
  {
    var range := IndexRange(mapped, MappedKeyRange(env, view, key));
    var hit := MappedKeyHit(env, view, key);
    found := [];
    var i := 0;
    while i < |range|
      invariant 0 <= i <= |range|
      invariant found == FilterMap(range[..i], hit, MappedInfoOf(loadData))
    {
      FilterMapStep(range, hit, MappedInfoOf(loadData), i);
      var row := range[i];
      i := i + 1;
      if !SameName(env, row.view, view) || row.reduceKey != key {
        continue;
      }
      found := found + [MappedInfo(row, loadData)];
    }
    assert range[..i] == range;
  }

  /** The first loop of GetKeysStats: move `start` rows forward from the
      first of `count` rows, or report that the range ran out. */
  method SkipStart(count: nat, start: int) returns (p: nat, found: bool)
    requires count > 0
    ensures found <==> Max(start, 0) < count
    ensures found ==> p == Max(start, 0)
  {
    p := 0;
    var skip := start;
    while skip > 0
      invariant 0 <= p < count
      invariant p + Max(skip, 0) == Max(start, 0)
    {
      skip := skip - 1;
      if p + 1 >= count {
        return p, false;
      }
      p := p + 1;
    }
    found := true;
  }

  /** The do/while loop of GetKeysStats: from row `s`, read one row and go
      on while rows remain and the page is not full. */
  method ReadPage(range: seq<KeyRow<int>>, s: nat, pageSize: int) returns (r: seq<ReduceKeyAndCount>)
    requires s < |range|
    ensures IsPage(range, s, Max(pageSize, 1), r)
  {
    var p := s;
    var left := pageSize;
    r := [];
    var more := true;
    while more
      invariant s <= p <= |range| && |r| == p - s && left == pageSize - |r|
      invariant more ==> p < |range| && (|r| == 0 || left > 0)
      invariant !more ==> p == Min(|range|, s + Max(pageSize, 1))
      invariant forall i :: 0 <= i < |r| ==> r[i] == KeyAndCount(range[s + i])
      decreases |range| - p, more
    {
      left := left - 1;
      r := r + [KeyAndCount(range[p])];
      p := p + 1;
      more := p < |range| && left > 0;
    }
  }

  /** GetKeysStats: skip `start` rows of the view's counter range, then
      read one page. */
  method KeysStatsScan(env: Env, counts: seq<KeyRow<int>>, view: string, start: int, pageSize: int) returns (r: seq<ReduceKeyAndCount>)
    ensures r == KeysStats(env, counts, view, start, pageSize)
  {
    KeysStatsPage(env, counts, view, start, pageSize);
    var range := IndexRange(counts, CountsViewRange(env, view));
    if |range| == 0 {
      return [];
    }
    var p, found := SkipStart(|range|, start);
    if !found {
      return [];
    }
    r := ReadPage(range, p, pageSize);
    PageUnique(range, p, Max(pageSize, 1), r, KeysStats(env, counts, view, start, pageSize));
  }

  /** GetMappedResultsReduceKeysAfter: from the given etag upward, the
      latest record of each key, until `take` keys are gathered or a row
      of another view (compared ordinally) is reached. */
  method KeysAfterScan(env: Env, mapped: seq<MappedRow>, view: string, lastReducedEtag: nat, loadData: bool, take: int) returns (r: seq<MappedResultInfo>)
    ensures r == KeysAfter(env, mapped, view, lastReducedEtag, loadData, take)
  {
    var range := IndexRange(mapped, AfterRange(env, view, lastReducedEtag));
    r := [];
    var i := 0;
    while i < |range| && |r| < take && range[i].view == view
      invariant 0 <= i <= |range|
      invariant KeysAfterFrom(range, i, view, loadData, take, r) == KeysAfterFrom(range, 0, view, loadData, take, [])
      decreases |range| - i
    {
      r := Upsert(r, KeysAfterInfo(range[i], loadData));
      i := i + 1;
    }
  }

  /** The body of the do/while loop of GetItemsToReduce on row x: a row
      that passes the re-check is recorded in the reader, and its pair is
      expanded the first time it is seen. */
  method ScanRow(env: Env, mapped: seq<MappedRow>, reduced: seq<ReducedRow>, view: string, level: int, loadData: bool, key: string, x: ScheduledRow, st: ScanState)
    returns (r: Outcome<ScanState>)
    ensures r == ScanStep(Expand(env, mapped, reduced, view, level, loadData), key, x, st)
  {
    if !(SameName(env, x.view, view) && x.level == level && (key == "" || x.reduceKey == key)) {
      return Ok(st);
    }
    var pair := PairOf(x);
    if pair in st.seen {
      return Ok(st.(reader := st.reader + [x]));
    }
    var rs := ResultsForBucketScan(env, mapped, reduced, view, level, x.reduceKey, x.bucket, loadData);
    if rs.Fail? {
      return Fail(rs.error);
    }
    return Ok(ScanState(st.out + rs.value, st.reader + [x], st.seen + [pair]));
  }

  /** The do/while loop of GetItemsToReduce over the range of one
      requested key, with `budget` results still to take. */
  method ScanKeyRange(env: Env, mapped: seq<MappedRow>, reduced: seq<ReducedRow>, view: string, level: int, loadData: bool, key: string, range: seq<ScheduledRow>, budget: int)
    returns (r: Outcome<ScanState>)
    requires |range| > 0
    ensures r == KeyScan(Expand(env, mapped, reduced, view, level, loadData), key, range, 0, budget, ScanState([], [], []))
  {
    ghost var e := Expand(env, mapped, reduced, view, level, loadData);
    var st := ScanState([], [], []);
    var j := 0;
    while true
      invariant 0 <= j < |range|
      invariant KeyScan(e, key, range, j, budget, st) == KeyScan(e, key, range, 0, budget, ScanState([], [], []))
      decreases |range| - j
    {
      var next := ScanRow(env, mapped, reduced, view, level, loadData, key, range[j], st);
      match next
      case Fail(err) => return Fail(err);
      case Ok(s) =>
        if !(j + 1 < |range| && budget - |s.out| > 0) {
          return Ok(s);
        }
        st := s;
        j := j + 1;
    }
  }

  /** One pass of the loop of GetItemsToReduce: key k's range is read and
      scanned, and the batch grows or the enumeration ends. */
  method ItemsKeyStep(env: Env, mapped: seq<MappedRow>, reduced: seq<ReducedRow>, scheduled: seq<ScheduledRow>, view: string, keys: seq<string>, k: nat, level: int, take: int, loadData: bool, acc: Batch) returns (st: Step)
    requires k < |keys|
    ensures st == KeyStep(Expand(env, mapped, reduced, view, level, loadData), scheduled, keys, k, take, acc)
  {
    var range := IndexRange(scheduled, SchedRange(env, view, level, keys[k]));
    if |range| == 0 {
      return Stop(acc);
    }
    var scan := ScanKeyRange(env, mapped, reduced, view, level, loadData, keys[k], range, take - |acc.results|);
    if scan.Fail? {
      return Broken(scan.error);
    }
    var next := Batch(acc.results + scan.value.out, acc.readers + [scan.value.reader]);
    if take - |next.results| <= 0 {
      return Stop(next);
    }
    return Continue(next);
  }

  method ItemsToReduceScan(env: Env, mapped: seq<MappedRow>, reduced: seq<ReducedRow>, scheduled: seq<ScheduledRow>, view: string, keys: seq<string>, level: int, take: int, loadData: bool) returns (r: Outcome<Batch>)
    ensures r == ItemsToReduce(Expand(env, mapped, reduced, view, level, loadData), scheduled, keys, take)
  {
    ghost var e := Expand(env, mapped, reduced, view, level, loadData);
    var acc := Batch([], []);
    var k := 0;
    while k < |keys|
      invariant 0 <= k <= |keys|
      invariant ItemsFrom(e, scheduled, keys, k, take, acc) == ItemsToReduce(e, scheduled, keys, take)
      decreases |keys| - k
    {
      var st := ItemsKeyStep(env, mapped, reduced, scheduled, view, keys, k, level, take, loadData, acc);
      match st
      case Broken(err) => return Fail(err);
      case Stop(b) => return Ok(b);
      case Continue(b) =>
        acc := b;
        k := k + 1;
    }
    return Ok(acc);
  }

  /** Storage actions over the map/reduce tables. Etags come from one
      sequential generator shared by all tables; `lastEtag` is the last one
      handed out. */
  class DocumentStorageActions {
    const env: Env
    var mapped: seq<MappedRow>
    var reduced: seq<ReducedRow>
    var scheduled: seq<ScheduledRow>
    var counts: seq<KeyRow<int>>
    var status: seq<KeyRow<ReduceType>>
    var lastEtag: nat

    /** Rows are stored in etag order, every etag was handed out by the
        generator, every row carries the hash of its reduce key, and the
        key tables hold at most one row per index key. */
    ghost predicate Valid()
      reads this
    {
      && MappedTableOk(env, mapped, lastEtag)
      && ReducedTableOk(env, reduced, lastEtag)
      && ScheduledTableOk(env, scheduled, lastEtag)
      && KeyTableOk(env, counts) && KeyTableOk(env, status)
    }

    constructor(env: Env)
      ensures Valid()
      ensures this.env == env && lastEtag == 0
      ensures mapped == [] && reduced == [] && scheduled == [] && counts == [] && status == []
    {
      this.env := env;
      mapped, reduced, scheduled, counts, status := [], [], [], [], [];
      lastEtag := 0;
    }

    // ---- ExecuteOnReduceKey and the counters ----

    /** The seek and walk of ExecuteOnReduceKey: the range is empty, or the
        first row of the range whose key is ordinally equal, or none. */
    method SeekReduceKey<V>(table: seq<KeyRow<V>>, view: string, key: string) returns (loc: Location)
      ensures loc == Locate(env, table, view, key)
    {
      var i := 0;
      while i < |table| && !InKeyRange(env, table[i], view, key)
        invariant 0 <= i <= |table|
        invariant forall j :: 0 <= j < i ==> !InKeyRange(env, table[j], view, key)
      {
        i := i + 1;
      }
      if i == |table| {
        return Absent;
      }
      while i < |table|
        invariant 0 <= i <= |table|
        invariant FirstKeyRow(env, table, view, key, 0) == FirstKeyRow(env, table, view, key, i)
      {
        if InKeyRange(env, table[i], view, key) && table[i].reduceKey == key {
          return At(i);
        }
        i := i + 1;
      }
      return Unmatched;
    }

    /** IncrementReduceKeyCounter. */
    method IncrementReduceKeyCounter(view: string, key: string)
      requires Valid()
      modifies this
      ensures Valid()
      ensures counts == Increment(env, old(counts), view, key)
      ensures mapped == old(mapped) && reduced == old(reduced) && scheduled == old(scheduled)
      ensures status == old(status) && lastEtag == old(lastEtag)
    {
      CounterOpsKeepOk(env, counts, status, view, key);
      var loc := SeekReduceKey(counts, view, key);
      match loc {
        case Absent => counts := counts + [NewKeyRow(env, view, key, 0 + 1)];
        case At(i) => counts := counts[i := counts[i].(value := counts[i].value + 1)];
        case Unmatched =>
      }
    }

    /** DecrementReduceKeyCounter: when the escrow update finds 1, the
        counter row goes, and so does the key's status row. */
    method DecrementReduceKeyCounter(view: string, key: string)
      requires Valid()
      modifies this
      ensures Valid()
      ensures (counts, status) == Decrement(env, old(counts), old(status), view, key)
      ensures mapped == old(mapped) && reduced == old(reduced) && scheduled == old(scheduled)
      ensures lastEtag == old(lastEtag)
    {
      CounterOpsKeepOk(env, counts, status, view, key);
      var removeStatus := false;
      var loc := SeekReduceKey(counts, view, key);
      match loc {
        case Absent => counts := counts + [NewKeyRow(env, view, key, 0 - 1)];
        case At(i) =>
          var before := counts[i].value;
          if before == 1 {
            counts := RemoveAt(counts, i);
            removeStatus := true;
          } else {
            counts := counts[i := counts[i].(value := before - 1)];
          }
        case Unmatched =>
      }
      if removeStatus {
        DeleteReduceKeyStatus(view, key);
      }
    }

    /** The status row of a key whose counter reached zero is deleted too. */
    method DeleteReduceKeyStatus(view: string, key: string)
      requires KeyTableOk(env, status)
      modifies this
      ensures status == DeleteStatus(env, old(status), view, key)
      ensures mapped == old(mapped) && reduced == old(reduced) && scheduled == old(scheduled)
      ensures counts == old(counts) && lastEtag == old(lastEtag)
    {
      var loc := SeekReduceKey(status, view, key);
      match loc {
        case At(j) => status := RemoveAt(status, j);
        case _ =>
      }
    }

    /** GetNumberOfMappedItemsPerReduceKey; a row holding 0 is inserted when
        the range is empty. */
    method GetNumberOfMappedItemsPerReduceKey(view: string, key: string) returns (n: int)
      requires Valid()
      modifies this
      ensures Valid()
      ensures (counts, n) == ReadCount(env, old(counts), view, key)
      ensures mapped == old(mapped) && reduced == old(reduced) && scheduled == old(scheduled)
      ensures status == old(status) && lastEtag == old(lastEtag)
    {
      CounterOpsKeepOk(env, counts, status, view, key);
      n := 0;
      var loc := SeekReduceKey(counts, view, key);
      match loc {
        case Absent => counts := counts + [NewKeyRow(env, view, key, 0)];
        case At(i) => n := counts[i].value;
        case Unmatched =>
      }
    }

    /** UpdatePerformedReduceType. */
    method UpdatePerformedReduceType(view: string, key: string, t: ReduceType)
      requires Valid()
      modifies this
      ensures Valid()
      ensures status == SetReduceType(env, old(status), view, key, t)
      ensures mapped == old(mapped) && reduced == old(reduced) && scheduled == old(scheduled)
      ensures counts == old(counts) && lastEtag == old(lastEtag)
    {
      StatusOpsKeepOk(env, status, view, key, t);
      var loc := SeekReduceKey(status, view, key);
      match loc {
        case Absent => status := status + [NewKeyRow(env, view, key, t)];
        case At(i) => status := status[i := status[i].(value := t)];
        case Unmatched =>
      }
    }

    /** GetLastPerformedReduceType; a row holding Unset is inserted when the
        range is empty. */
    method GetLastPerformedReduceType(view: string, key: string) returns (t: ReduceType)
      requires Valid()
      modifies this
      ensures Valid()
      ensures (status, t) == LastReduceType(env, old(status), view, key)
      ensures mapped == old(mapped) && reduced == old(reduced) && scheduled == old(scheduled)
      ensures counts == old(counts) && lastEtag == old(lastEtag)
    {
      StatusOpsKeepOk(env, status, view, key, Unset);
      t := Unset;
      var loc := SeekReduceKey(status, view, key);
      match loc {
        case Absent => status := status + [NewKeyRow(env, view, key, Unset)];
        case At(i) => t := status[i].value;
        case Unmatched =>
      }
    }

    // ---- inserts ----

    /** PutMappedResult: one new mapped row with a fresh etag, then the
        key's counter goes up by one. */
    method PutMappedResult(view: string, docId: string, key: string, data: Payload, now: int)
      requires Valid()
      modifies this
      ensures Valid()
      ensures lastEtag == old(lastEtag) + 1
      ensures mapped == old(mapped) + [MappedRow(view, docId, key, env.hashOf(key), env.bucketOf(docId), lastEtag, now, data)]
      ensures counts == Increment(env, old(counts), view, key)
      ensures reduced == old(reduced) && scheduled == old(scheduled) && status == old(status)
    {
      lastEtag := lastEtag + 1;
      var row := MappedRow(view, docId, key, env.hashOf(key), env.bucketOf(docId), lastEtag, now, data);
      AscendingSnoc(mapped, row, MappedEtag);
      mapped := mapped + [row];
      IncrementReduceKeyCounter(view, key);
    }

    /** PutReducedResult: one new reduced row with a fresh etag. */
    method PutReducedResult(view: string, key: string, level: int, sourceBucket: int, bucket: int, data: Payload, now: int)
      requires Valid()
      modifies this
      ensures Valid()
      ensures lastEtag == old(lastEtag) + 1
      ensures reduced == old(reduced) + [ReducedRow(view, level, key, env.hashOf(key), bucket, sourceBucket, lastEtag, now, data)]
      ensures mapped == old(mapped) && scheduled == old(scheduled) && counts == old(counts) && status == old(status)
    {
      lastEtag := lastEtag + 1;
      var row := ReducedRow(view, level, key, env.hashOf(key), bucket, sourceBucket, lastEtag, now, data);
      AscendingSnoc(reduced, row, ReducedEtag);
      reduced := reduced + [row];
    }

    /** ScheduleReductions: one scheduled row per (key, bucket) pair, in
        order, each with its own fresh etag. */
    method ScheduleReductions(view: string, level: int, pairs: seq<ReduceKeyAndBucket>, now: int)
      requires Valid()
      modifies this
      ensures Valid()
      ensures lastEtag == old(lastEtag) + |pairs|
      ensures scheduled == old(scheduled) + NewScheduledRows(env, view, level, pairs, old(lastEtag), now)
      ensures mapped == old(mapped) && reduced == old(reduced) && counts == old(counts) && status == old(status)
    {
      var i := 0;
      while i < |pairs|
        invariant 0 <= i <= |pairs|
        invariant Valid()
        invariant lastEtag == old(lastEtag) + i
        invariant scheduled == old(scheduled) + NewScheduledRows(env, view, level, pairs[..i], old(lastEtag), now)
        invariant mapped == old(mapped) && reduced == old(reduced) && counts == old(counts) && status == old(status)
      {
        var p := pairs[i];
        lastEtag := lastEtag + 1;
        var row := ScheduledRow(view, level, p.reduceKey, env.hashOf(p.reduceKey), p.bucket, lastEtag, now);
        AscendingSnoc(scheduled, row, ScheduledEtag);
        NewScheduledRowsSnoc(env, view, level, pairs, i, old(lastEtag), now);
        scheduled := scheduled + [row];
        i := i + 1;
      }
      assert pairs[..i] == pairs;
    }

    // ---- lookups ----

    /** GetMappedResultsForBucket: the range of (view, bucket, hash) with
        hash collisions skipped, or one placeholder record when nothing
        matched. */
    method GetMappedResultsForBucket(view: string, key: string, bucket: int, loadData: bool) returns (r: seq<MappedResultInfo>)
      ensures r == MappedForBucket(env, mapped, view, key, bucket, loadData)
    {
      r := MappedForBucketScan(env, mapped, view, key, bucket, loadData);
    }

    /** GetReducedResultsForBucket: the range of (view, level, bucket, hash)
        up to the first row of another bucket, other keys skipped, or one
        placeholder record when nothing matched. */
    method GetReducedResultsForBucket(view: string, key: string, level: int, bucket: int, loadData: bool) returns (r: seq<MappedResultInfo>)
      ensures r == ReducedForBucket(env, reduced, view, key, level, bucket, loadData)
    {
      r := ReducedForBucketScan(env, reduced, view, key, level, bucket, loadData);
    }

    /** GetResultsForBucket: level 0 reads mapped results, levels 1 and 2
        reduced results; any other level is an invalid argument. */
    method GetResultsForBucket(view: string, level: int, key: string, bucket: int, loadData: bool) returns (r: Outcome<seq<MappedResultInfo>>)
      ensures r == ResultsForBucket(env, mapped, reduced, view, level, key, bucket, loadData)
    {
      r := ResultsForBucketScan(env, mapped, reduced, view, level, key, bucket, loadData);
    }

    /** GetMappedBuckets: the bucket of every row of the (view, hash) range
        whose view and key match ignoring case. */
    method GetMappedBuckets(view: string, key: string) returns (r: seq<int>)
      ensures r == MappedBuckets(env, mapped, view, key)
    {
      r := MappedBucketsScan(env, mapped, view, key);
    }

    /** GetMappedResults: key by key, the rows of the (view, hash) range
        whose view matches ignoring case and whose key matches ordinally. */
    method GetMappedResults(view: string, keys: seq<string>, loadData: bool, take: int) returns (r: seq<MappedResultInfo>)
      ensures r == MappedResults(env, mapped, view, keys, loadData)
    {
      r := MappedResultsScan(env, mapped, view, keys, loadData);
    }

    /** GetKeysStats: skip `start` rows of the view's counter range, then
        read one row and go on while rows remain and the page is not full. */
    method GetKeysStats(view: string, start: int, pageSize: int) returns (r: seq<ReduceKeyAndCount>)
      ensures r == KeysStats(env, counts, view, start, pageSize)
    {
      r := KeysStatsScan(env, counts, view, start, pageSize);
    }

    /** GetMappedResultsReduceKeysAfter: from the given etag upward, the
        latest record of each key, until `take` keys are gathered or a row
        of another view (compared ordinally) is reached. */
    method GetMappedResultsReduceKeysAfter(view: string, lastReducedEtag: nat, loadData: bool, take: int) returns (r: seq<MappedResultInfo>)
      ensures r == KeysAfter(env, mapped, view, lastReducedEtag, loadData, take)
    {
      r := KeysAfterScan(env, mapped, view, lastReducedEtag, loadData, take);
    }

    // ---- the reduction queue ----

    /** The arguments GetResultsForBucket is called with during a dequeue. */
    function Expansion(view: string, level: int, loadData: bool): Expand
      reads this
    {
      Expand(env, mapped, reduced, view, level, loadData)
    }

    /** The do/while loop of GetItemsToReduce over the range of one
        requested key, with `budget` results still to take. */
    method ScanKey(view: string, level: int, loadData: bool, key: string, range: seq<ScheduledRow>, budget: int)
      returns (r: Outcome<ScanState>)
      requires |range| > 0
      ensures r == KeyScan(Expansion(view, level, loadData), key, range, 0, budget, ScanState([], [], []))
    {
      r := ScanKeyRange(env, mapped, reduced, view, level, loadData, key, range, budget);
    }

    /** GetItemsToReduce: the results to reduce, and the readers it adds to
        itemsToDelete (one per requested key whose range it scanned). */
    method GetItemsToReduce(view: string, keys: seq<string>, level: int, take: int, loadData: bool) returns (r: Outcome<Batch>)
      ensures r == ItemsToReduce(Expansion(view, level, loadData), scheduled, keys, take)
    {
      r := ItemsToReduceScan(env, mapped, reduced, scheduled, view, keys, level, take, loadData);
    }

    /** JetGotoBookmark and JetDelete on one scheduled row: the row is
        deleted, or the call reports that it is already gone. */
    method DeleteByBookmark(x: ScheduledRow) returns (found: bool)
      requires Valid()
      modifies this
      ensures Valid()
      ensures found <==> x in old(scheduled)
      ensures scheduled == if found then Remove(old(scheduled), x) else old(scheduled)
      ensures mapped == old(mapped) && reduced == old(reduced) && counts == old(counts) && status == old(status)
      ensures lastEtag == old(lastEtag)
    {
      found := x in scheduled;
      if found {
        FilterAscending(scheduled, Other(x), ScheduledEtag);
        ScheduledSubtableOk(env, scheduled, Remove(scheduled, x), lastEtag);
        scheduled := Remove(scheduled, x);
      }
    }

    /** DeleteScheduledReduction: every row recorded by the readers is
        deleted through its bookmark, and the last of them with an etag above
        the empty one is reported. A bookmark whose row is already gone
        fails the call, with the deletions before it kept. */
    method DeleteScheduledReduction(readers: seq<seq<ScheduledRow>>) returns (r: Outcome<Option<ScheduledReductionInfo>>)
      requires Valid()
      modifies this
      ensures Valid()
      ensures scheduled == Retire(old(scheduled), Flatten(readers)).0
      ensures r.Ok? <==> Retire(old(scheduled), Flatten(readers)).1
      ensures r.Fail? ==> r.error == RecordDeleted
      ensures r.Ok? ==> r.value == match LastPositive(Flatten(readers))
                                   case None => None
                                   case Some(x) => Some(ReductionInfoOf(x))
      ensures mapped == old(mapped) && reduced == old(reduced) && counts == old(counts) && status == old(status)
      ensures lastEtag == old(lastEtag)
    {
      var rows := Flatten(readers);
      var hasResult := false;
      var result := ScheduledReductionInfo(0, 0);
      var i := 0;
      while i < |rows|
        invariant 0 <= i <= |rows|
        invariant Retire(old(scheduled), rows[..i]).1 && scheduled == Retire(old(scheduled), rows[..i]).0
        invariant hasResult <==> LastPositive(rows[..i]).Some?
        invariant hasResult ==> result == ReductionInfoOf(LastPositive(rows[..i]).value)
        invariant Valid()
        invariant mapped == old(mapped) && reduced == old(reduced) && counts == old(counts) && status == old(status)
        invariant lastEtag == old(lastEtag)
      {
        var x := rows[i];
        VisitStep(old(scheduled), rows, i);
        ghost var next := Retire(old(scheduled), rows[..i + 1]);
        var found := DeleteByBookmark(x);
        if !found {
          assert !next.1;
          RetireStops(old(scheduled), rows, i + 1);
          return Fail(RecordDeleted);
        }
        assert next == (scheduled, true);
        if x.etag > 0 {
          hasResult := true;
          result := ReductionInfoOf(x);
        }
        i := i + 1;
      }
      assert rows[..i] == rows;
      r := Ok(if hasResult then Some(result) else None);
    }

    // ---- deletions ----

    /** The walk over an index range of the mapped results that deletes every
        row passing the re-check, reporting the deleted rows in order. */
    method DeleteMappedRows(inRange: MappedRow -> bool, hit: MappedRow -> bool) returns (deleted: seq<MappedRow>)
      requires Valid()
      modifies this
      ensures Valid()
      ensures deleted == Filter(Filter(old(mapped), inRange), hit)
      ensures mapped == Filter(old(mapped), Not(And(inRange, hit)))
      ensures reduced == old(reduced) && scheduled == old(scheduled) && counts == old(counts) && status == old(status)
      ensures lastEtag == old(lastEtag)
    {
      var kept;
      kept, deleted := SplitRows(mapped, inRange, hit);
      FilterAscending(mapped, Not(And(inRange, hit)), MappedEtag);
      MappedSubtableOk(env, mapped, kept, lastEtag);
      mapped := kept;
    }

    /** DecrementReduceKeyCounter for each of `keys` in turn. */
    method DecrementEach(view: string, keys: seq<string>)
      requires Valid()
      modifies this
      ensures Valid()
      ensures (counts, status) == DecrementAll(env, old(counts), old(status), view, keys)
      ensures mapped == old(mapped) && reduced == old(reduced) && scheduled == old(scheduled)
      ensures lastEtag == old(lastEtag)
    {
      var j := 0;
      while j < |keys|
        invariant 0 <= j <= |keys|
        invariant Valid()
        invariant (counts, status) == DecrementAll(env, old(counts), old(status), view, keys[..j])
        invariant mapped == old(mapped) && reduced == old(reduced) && scheduled == old(scheduled)
        invariant lastEtag == old(lastEtag)
      {
        assert keys[..j + 1][..j] == keys[..j] && keys[..j + 1][j] == keys[j];
        DecrementReduceKeyCounter(view, keys[j]);
        j := j + 1;
      }
      assert keys[..j] == keys;
    }

    /** DeleteMappedResultsForDocumentId: nothing happens when the seek
        finds no row; otherwise every mapped row of the view and document
        (both ignoring case) is deleted, its (bucket, key) pair is added to
        `removed`, and then one decrement runs per element of `removed`,
        the elements the caller passed in included. */
    method DeleteMappedResultsForDocumentId(docId: string, view: string, removed: seq<ReduceKeyAndBucket>)
      returns (removed': seq<ReduceKeyAndBucket>)
      requires Valid()
      modifies this
      ensures Valid()
      ensures mapped == Filter(old(mapped), Not(DocHit(env, view, docId)))
      ensures Filter(old(mapped), DocRange(env, view, docId)) == [] ==>
        removed' == removed && counts == old(counts) && status == old(status)
      ensures Filter(old(mapped), DocRange(env, view, docId)) != [] ==>
        && removed' == AddAll(removed, PairsOf(DocumentRows(env, old(mapped), view, docId)))
        && (counts, status) == DecrementAll(env, old(counts), old(status), view, KeysOfPairs(removed'))
      ensures reduced == old(reduced) && scheduled == old(scheduled) && lastEtag == old(lastEtag)
    {
      DocRowsInRange(env, old(mapped), view, docId);
      var range := IndexRange(mapped, DocRange(env, view, docId));
      if |range| == 0 {
        return removed;
      }
      var deleted := DeleteMappedRows(DocRange(env, view, docId), DocHit(env, view, docId));
      removed' := AddPairs(removed, deleted);
      DecrementEach(view, KeysOfPairs(removed'));
    }

    /** DeleteMappedResultsForView: every mapped row of the view (ignoring
        case) is deleted, and then one decrement runs per deleted row. */
    method DeleteMappedResultsForView(view: string)
      requires Valid()
      modifies this
      ensures Valid()
      ensures mapped == Filter(old(mapped), Not(ViewHit(env, view)))
      ensures (counts, status) == DecrementAll(env, old(counts), old(status), view, KeysOfRows(ViewRows(env, old(mapped), view)))
      ensures reduced == old(reduced) && scheduled == old(scheduled) && lastEtag == old(lastEtag)
    {
      ViewRowsInRange(env, old(mapped), view);
      var deleted := DeleteMappedRows(ViewRange(env, view), ViewHit(env, view));
      var deletedKeys := ReduceKeysOf(deleted);
      DecrementEach(view, deletedKeys);
    }

    /** JetDelete on each of the given reduced rows. */
    method DeleteReducedRows(rows: seq<ReducedRow>)
      requires Valid()
      modifies this
      ensures Valid()
      ensures reduced == Filter(old(reduced), NotIn(rows))
      ensures mapped == old(mapped) && scheduled == old(scheduled) && counts == old(counts) && status == old(status)
      ensures lastEtag == old(lastEtag)
    {
      FilterAscending(reduced, NotIn(rows), ReducedEtag);
      ReducedSubtableOk(env, reduced, Filter(reduced, NotIn(rows)), lastEtag);
      reduced := Filter(reduced, NotIn(rows));
    }

    /** RemoveReduceResults over the reduced rows in the order of index
        by_view_level_source_bucket_and_hashed_reduce_key: seek the first row
        at or after (view, level, source bucket, hash); from there delete the
        rows whose key matches ordinally, until a row of another view or
        source bucket. */
    method RemoveReduceResults(view: string, level: int, key: string, sourceBucket: int, order: seq<ReducedRow>)
      requires Valid()
      requires multiset(order) == multiset(reduced)
      modifies this
      ensures Valid()
      ensures reduced == Filter(old(reduced), NotIn(ReducedRemovals(env, order, view, level, sourceBucket, key)))
      ensures mapped == old(mapped) && scheduled == old(scheduled) && counts == old(counts) && status == old(status)
      ensures lastEtag == old(lastEtag)
    {
      var i := SeekFirst(order, SourceSeek(env, view, level, sourceBucket, key));
      var doomed := [];
      if i < |order| {
        doomed := WalkRun(env, order, i, view, sourceBucket, key);
      }
      DeleteReducedRows(doomed);
    }

    /** GetReduceTypesPerKeys: the keys scheduled for the view, once each
        ignoring case, and for each the strategy its mapped count calls for
        (counts reaching the limit call for a multi-step reduce). Reading a
        count may insert a counter row holding 0. */
    method GetReduceTypesPerKeys(view: string, limit: int) returns (entries: seq<ReduceTypePerKey>)
      requires Valid()
      modifies this
      ensures Valid()
      ensures (counts, entries) == ReduceTypesOf(env, old(counts), view, ScheduledKeys(env, old(scheduled), view), limit)
      ensures mapped == old(mapped) && reduced == old(reduced) && scheduled == old(scheduled)
      ensures status == old(status) && lastEtag == old(lastEtag)
    {
      var range := IndexRange(scheduled, SchedViewRange(env, view));
      entries := [];
      if |range| == 0 {
        return;
      }
      var keys := CollectScheduledKeys(env, range, view);
      entries := ReadReduceTypes(view, keys, limit);
    }

    /** The second loop of GetReduceTypesPerKeys: for each key, read its
        mapped count and record the strategy the count calls for. */
    method ReadReduceTypes(view: string, keys: seq<string>, limit: int) returns (entries: seq<ReduceTypePerKey>)
      requires Valid()
      modifies this
      ensures Valid()
      ensures (counts, entries) == ReduceTypesOf(env, old(counts), view, keys, limit)
      ensures mapped == old(mapped) && reduced == old(reduced) && scheduled == old(scheduled)
      ensures status == old(status) && lastEtag == old(lastEtag)
    {
      entries := [];
      var i := 0;
      while i < |keys|
        invariant 0 <= i <= |keys|
        invariant Valid()
        invariant (counts, entries) == ReduceTypesOf(env, old(counts), view, keys[..i], limit)
        invariant mapped == old(mapped) && reduced == old(reduced) && scheduled == old(scheduled)
        invariant status == old(status) && lastEtag == old(lastEtag)
      {
        ReduceTypesStep(env, old(counts), view, keys, i, limit);
        var n := GetNumberOfMappedItemsPerReduceKey(view, keys[i]);
        entries := entries + [ReduceTypePerKey(keys[i], TypeFor(n, limit))];
        i := i + 1;
      }
      assert keys[..i] == keys;
    }

    /** GetKeysForIndexForDebug over the mapped rows in the order of index
        by_view_reduce_key_and_bucket: seek at or after the view, move by
        `start` distinct index keys, then collect up to `take` distinct
        reduce keys of the view. */
    method GetKeysForIndexForDebug(view: string, start: int, take: int, order: seq<MappedRow>) returns (keys: seq<string>)
      requires multiset(order) == multiset(mapped)
      ensures keys == KeysForIndexForDebug(env, order, view, start, take)
    {
      keys := [];
      if take <= 0 {
        return;
      }
      var p := SeekFirst(order, AtOrAfterView(env, view));
      if p == |order| {
        return;
      }
      var moved := MoveKeyNE(env, order, p, start);
      if moved.Some? {
        keys := KeysWalk(env, order, moved.value, view, take);
      }
    }

    /** GetMappedResultsForDebug over the mapped rows in the order of index
        by_view_bucket_and_hashed_reduce_key: seek at or after the view, then
        yield up to `take` rows of the view whose key equals `key` ignoring
        case. */
    method GetMappedResultsForDebug(view: string, key: string, take: int, order: seq<MappedRow>) returns (infos: seq<MappedResultInfo>)
      requires multiset(order) == multiset(mapped)
      ensures infos == MappedResultsForDebug(env, order, view, key, take)
    {
      infos := [];
      if take <= 0 {
        return;
      }
      var p := SeekFirst(order, AtOrAfterView(env, view));
      if p < |order| {
        infos := MappedDebugWalk(env, order, p, view, key, take);
      }
    }

    /** GetReducedResultsForDebug over the reduced rows in the order of index
        by_view_level_source_bucket_and_hashed_reduce_key: seek at or after
        (view, level), then yield up to `take` rows of that view and level
        whose key equals `key` ignoring case. */
    method GetReducedResultsForDebug(view: string, key: string, level: int, take: int, order: seq<ReducedRow>)
      returns (infos: seq<MappedResultInfo>)
      requires multiset(order) == multiset(reduced)
      ensures infos == ReducedResultsForDebug(env, order, view, key, level, take)
    {
      infos := [];
      if take <= 0 {
        return;
      }
      var p := SeekFirst(order, AtOrAfterViewLevel(env, view, level));
      if p < |order| {
        infos := ReducedDebugWalk(env, order, p, view, key, level, take);
      }
    }
  }
}
