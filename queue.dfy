/** The reduction queue: GetItemsToReduce reads the scheduled reductions of
    a list of reduce keys and expands them into the results the reduce step
    consumes, recording every row it read; DeleteScheduledReduction later
    deletes the recorded rows. */
module Queue {
  import opened Common
  import opened Schema
  import opened Lookups

  /** The rows ScheduleReductions inserts for `pairs`, the i-th with etag
      base + i + 1. */
  function NewScheduledRows(env: Env, view: string, level: int, pairs: seq<ReduceKeyAndBucket>, base: nat, now: int): (r: seq<ScheduledRow>)
    ensures |r| == |pairs|
    ensures forall i :: 0 <= i < |pairs| ==>
      r[i] == ScheduledRow(view, level, pairs[i].reduceKey, env.hashOf(pairs[i].reduceKey), pairs[i].bucket, base + i + 1, now)
  {
    seq(|pairs|, i requires 0 <= i < |pairs| =>
      ScheduledRow(view, level, pairs[i].reduceKey, env.hashOf(pairs[i].reduceKey), pairs[i].bucket, base + i + 1, now))
  }

  lemma NewScheduledRowsSnoc(env: Env, view: string, level: int, pairs: seq<ReduceKeyAndBucket>, i: nat, base: nat, now: int)
    requires i < |pairs|
    ensures NewScheduledRows(env, view, level, pairs[..i + 1], base, now)
      == NewScheduledRows(env, view, level, pairs[..i], base, now)
         + [ScheduledRow(view, level, pairs[i].reduceKey, env.hashOf(pairs[i].reduceKey), pairs[i].bucket, base + i + 1, now)]
  {
  }

  /** What a (reduce key, bucket) pair is expanded against. */
  datatype Expand = Expand(
    env: Env, mapped: seq<MappedRow>, reduced: seq<ReducedRow>,
    view: string, level: int, loadData: bool)

  /** Index by_view_level_and_hashed_reduce_key, seeked at (view, level, hash). */
  function SchedRange(env: Env, view: string, level: int, key: string): ScheduledRow -> bool
  {
    (r: ScheduledRow) => IndexKey(env, r.view) == IndexKey(env, view) && r.level == level && r.hash == env.hashOf(key)
  }

  /** The per-row re-check: view ignoring case, level, and the key compared
      ordinally unless the requested key is empty. */
  function SchedHit(env: Env, view: string, level: int, key: string): ScheduledRow -> bool
  {
    (r: ScheduledRow) => SameName(env, r.view, view) && r.level == level && (key == "" || r.reduceKey == key)
  }

  function KeyRange(env: Env, scheduled: seq<ScheduledRow>, view: string, level: int, key: string): seq<ScheduledRow>
  {
    Filter(scheduled, SchedRange(env, view, level, key))
  }

  /** The scheduled rows of a requested key that GetItemsToReduce reads. */
  function KeyMatches(env: Env, scheduled: seq<ScheduledRow>, view: string, level: int, key: string): seq<ScheduledRow>
  {
    Filter(KeyRange(env, scheduled, view, level, key), SchedHit(env, view, level, key))
  }

  function PairOf(r: ScheduledRow): (string, int)
  {
    (r.reduceKey, r.bucket)
  }

  /** The distinct (reduce key, bucket) pairs of `rows`, in order of first appearance. */
  function DistinctPairs(rows: seq<ScheduledRow>): (ps: seq<(string, int)>)
    ensures NoDuplicates(ps)
    ensures forall x :: x in rows ==> PairOf(x) in ps
  {
    if |rows| == 0 then []
    else
      var ps0 := DistinctPairs(rows[..|rows| - 1]);
      var x := rows[|rows| - 1];
      assert forall z :: z in rows ==> z in rows[..|rows| - 1] || z == x;
      if PairOf(x) in ps0 then ps0 else ps0 + [PairOf(x)]
  }

  /** Every distinct pair is the pair of some row. */
  lemma {:induction false} DistinctPairsSound(rows: seq<ScheduledRow>, p: (string, int))
    requires p in DistinctPairs(rows)
    ensures exists x :: x in rows && PairOf(x) == p
  {
    var r0, x := rows[..|rows| - 1], rows[|rows| - 1];
    if p in DistinctPairs(r0) {
      DistinctPairsSound(r0, p);
      var z :| z in r0 && PairOf(z) == p;
      assert z in rows;
    }
  }

  /** GetResultsForBucket applied to each pair in turn, concatenated. */
  function Fetch(e: Expand, ps: seq<(string, int)>): (r: Outcome<seq<MappedResultInfo>>)
    ensures r.Fail? <==> ps != [] && e.level !in {0, 1, 2}
    ensures r.Fail? ==> r.error == InvalidLevel(e.level)
    ensures r.Ok? ==> |r.value| >= |ps|
    ensures r.Ok? ==> forall y :: y in r.value ==> (y.reduceKey, y.bucket) in ps
  {
    if |ps| == 0 then Ok([])
    else
      var p := ps[|ps| - 1];
      match Fetch(e, ps[..|ps| - 1])
      case Fail(err) => Fail(err)
      case Ok(out) =>
        match ResultsForBucket(e.env, e.mapped, e.reduced, e.view, e.level, p.0, p.1, e.loadData)
        case Fail(err) => Fail(err)
        case Ok(rs) => Ok(out + rs)
  }

  /** The state of the scan over one key's range: what was yielded, the rows
      recorded in the key's reader, and the pairs already expanded. */
  datatype ScanState = ScanState(out: seq<MappedResultInfo>, reader: seq<ScheduledRow>, seen: seq<(string, int)>)

  /** One pass of the do/while body on row x. */
  function ScanStep(e: Expand, key: string, x: ScheduledRow, st: ScanState): (r: Outcome<ScanState>)
    ensures r.Fail? ==> r.error == InvalidLevel(e.level) && e.level !in {0, 1, 2}
    ensures r.Ok? ==> r.value.reader == st.reader + (if SchedHit(e.env, e.view, e.level, key)(x) then [x] else [])
  {
    if !SchedHit(e.env, e.view, e.level, key)(x) then Ok(st)
    else if PairOf(x) in st.seen then Ok(st.(reader := st.reader + [x]))
    else match ResultsForBucket(e.env, e.mapped, e.reduced, e.view, e.level, x.reduceKey, x.bucket, e.loadData)
      case Fail(err) => Fail(err)
      case Ok(rs) => Ok(ScanState(st.out + rs, st.reader + [x], st.seen + [PairOf(x)]))
  }

  /** A step keeps `seen` the distinct pairs of the reader and `out` their expansion. */
  lemma ScanStepKeeps(e: Expand, key: string, x: ScheduledRow, st: ScanState)
    requires st.seen == DistinctPairs(st.reader)
    requires Fetch(e, st.seen) == Ok(st.out)
    ensures var r := ScanStep(e, key, x, st);
      r.Ok? ==> r.value.seen == DistinctPairs(r.value.reader) && Fetch(e, r.value.seen) == Ok(r.value.out)
  {
    if SchedHit(e.env, e.view, e.level, key)(x) {
      DistinctPairsSnoc(st.reader, x);
      if PairOf(x) !in st.seen {
        FetchSnoc(e, st.seen, PairOf(x));
      }
    }
  }

  /** Recording one more row adds its pair unless it was there. */
  lemma DistinctPairsSnoc(rows: seq<ScheduledRow>, x: ScheduledRow)
    ensures DistinctPairs(rows + [x]) ==
      if PairOf(x) in DistinctPairs(rows) then DistinctPairs(rows) else DistinctPairs(rows) + [PairOf(x)]
  {
    assert (rows + [x])[..|rows|] == rows;
  }

  /** Expanding one more pair appends its results. */
  lemma FetchSnoc(e: Expand, ps: seq<(string, int)>, p: (string, int))
    ensures Fetch(e, ps + [p]) ==
      match Fetch(e, ps)
      case Fail(err) => Fail(err)
      case Ok(out) =>
        match ResultsForBucket(e.env, e.mapped, e.reduced, e.view, e.level, p.0, p.1, e.loadData)
        case Fail(err) => Fail(err)
        case Ok(rs) => Ok(out + rs)
  {
    assert (ps + [p])[..|ps|] == ps;
  }

  /** The do/while loop over the range of one requested key, from row j on,
      with `budget - |st.out|` results still to take. Rows that fail the
      re-check are skipped; a matching row is recorded, and its pair is
      expanded unless it was seen before. The loop runs while the range has
      rows and the budget is positive. */
  function KeyScan(e: Expand, key: string, range: seq<ScheduledRow>, j: nat, budget: int, st: ScanState): (r: Outcome<ScanState>)
    requires j < |range|
    decreases |range| - j
    ensures r.Fail? ==> r.error == InvalidLevel(e.level) && e.level !in {0, 1, 2}
  {
    match ScanStep(e, key, range[j], st)
    case Fail(err) => Fail(err)
    case Ok(s) =>
      if j + 1 < |range| && budget - |s.out| > 0 then KeyScan(e, key, range, j + 1, budget, s)
      else Ok(s)
  }

  /** The scan keeps `seen` the distinct pairs of the reader and `out` their
      expansion: within one key each (reduce key, bucket) pair is expanded once. */
  lemma {:induction false} KeyScanKeeps(e: Expand, key: string, range: seq<ScheduledRow>, j: nat, budget: int, st: ScanState)
    requires j < |range|
    requires st.seen == DistinctPairs(st.reader)
    requires Fetch(e, st.seen) == Ok(st.out)
    decreases |range| - j
    ensures var r := KeyScan(e, key, range, j, budget, st);
      r.Ok? ==> r.value.seen == DistinctPairs(r.value.reader) && Fetch(e, r.value.seen) == Ok(r.value.out)
  {
    ScanStepKeeps(e, key, range[j], st);
    var next := ScanStep(e, key, range[j], st);
    if next.Ok? && j + 1 < |range| && budget - |next.value.out| > 0 {
      KeyScanKeeps(e, key, range, j + 1, budget, next.value);
    }
  }

  /** The reader records matching rows of the range in order. */
  lemma {:induction false} KeyScanReaderPrefix(e: Expand, key: string, range: seq<ScheduledRow>, j: nat, budget: int, st: ScanState)
    requires j < |range|
    requires st.reader == Filter(range[..j], SchedHit(e.env, e.view, e.level, key))
    decreases |range| - j
    ensures var r := KeyScan(e, key, range, j, budget, st);
      r.Ok? ==> IsPrefix(r.value.reader, Filter(range, SchedHit(e.env, e.view, e.level, key)))
  {
    var hit := SchedHit(e.env, e.view, e.level, key);
    var next := ScanStep(e, key, range[j], st);
    if next.Ok? {
      var s := next.value;
      FilterStep(range, hit, j);
      assert s.reader == Filter(range[..j + 1], hit);
      if j + 1 < |range| && budget - |s.out| > 0 {
        assert KeyScan(e, key, range, j, budget, st) == KeyScan(e, key, range, j + 1, budget, s);
        KeyScanReaderPrefix(e, key, range, j + 1, budget, s);
      } else {
        assert KeyScan(e, key, range, j, budget, st) == Ok(s);
      }
    }
  }

  /** Unless the budget ran out, the reader records every matching row of the range. */
  lemma {:induction false} KeyScanReaderComplete(e: Expand, key: string, range: seq<ScheduledRow>, j: nat, budget: int, st: ScanState)
    requires j < |range|
    requires st.reader == Filter(range[..j], SchedHit(e.env, e.view, e.level, key))
    decreases |range| - j
    ensures var r := KeyScan(e, key, range, j, budget, st);
      r.Ok? && |r.value.out| < budget ==> r.value.reader == Filter(range, SchedHit(e.env, e.view, e.level, key))
  {
    var hit := SchedHit(e.env, e.view, e.level, key);
    var next := ScanStep(e, key, range[j], st);
    if next.Ok? {
      var s := next.value;
      FilterStep(range, hit, j);
      assert s.reader == Filter(range[..j + 1], hit);
      if j + 1 < |range| && budget - |s.out| > 0 {
        assert KeyScan(e, key, range, j, budget, st) == KeyScan(e, key, range, j + 1, budget, s);
        KeyScanReaderComplete(e, key, range, j + 1, budget, s);
      } else {
        assert KeyScan(e, key, range, j, budget, st) == Ok(s);
      }
    }
  }

  /** The results of a list of readers: each reader's distinct pairs expanded. */
  function FetchAll(e: Expand, readers: seq<seq<ScheduledRow>>): Outcome<seq<MappedResultInfo>>
  {
    if |readers| == 0 then Ok([])
    else
      match FetchAll(e, readers[..|readers| - 1])
      case Fail(err) => Fail(err)
      case Ok(out) =>
        match Fetch(e, DistinctPairs(readers[|readers| - 1]))
        case Fail(err) => Fail(err)
        case Ok(rs) => Ok(out + rs)
  }

  /** What GetItemsToReduce yields, and the readers it adds to itemsToDelete. */
  datatype Batch = Batch(results: seq<MappedResultInfo>, readers: seq<seq<ScheduledRow>>)

  /** How the loop over the requested keys goes on after one key: it stops
      with a batch, goes on to the next key with a batch, or fails. */
  datatype Step = Stop(batch: Batch) | Continue(batch: Batch) | Broken(error: StorageError)

  /** The body of the loop over the requested keys, for key k. A key whose
      range is empty ends the enumeration (yield break); otherwise the key's
      results and reader are added to the batch, and the loop goes on only
      while the budget is positive. */
  function KeyStep(e: Expand, scheduled: seq<ScheduledRow>, keys: seq<string>, k: nat, take: int, acc: Batch): (r: Step)
    requires k < |keys|
    ensures r.Broken? ==> r.error == InvalidLevel(e.level) && e.level !in {0, 1, 2}
  {
    var range := KeyRange(e.env, scheduled, e.view, e.level, keys[k]);
    if |range| == 0 then Stop(acc)
    else
      match KeyScan(e, keys[k], range, 0, take - |acc.results|, ScanState([], [], []))
      case Fail(err) => Broken(err)
      case Ok(s) =>
        var next := Batch(acc.results + s.out, acc.readers + [s.reader]);
        if take - |next.results| <= 0 then Stop(next) else Continue(next)
  }

  /** The loop over the requested keys from key k on. */
  function ItemsFrom(e: Expand, scheduled: seq<ScheduledRow>, keys: seq<string>, k: nat, take: int, acc: Batch): (r: Outcome<Batch>)
    requires k <= |keys|
    decreases |keys| - k
    ensures r.Fail? ==> r.error == InvalidLevel(e.level) && e.level !in {0, 1, 2}
  {
    if k == |keys| then Ok(acc)
    else
      match KeyStep(e, scheduled, keys, k, take, acc)
      case Broken(err) => Fail(err)
      case Stop(b) => Ok(b)
      case Continue(b) => ItemsFrom(e, scheduled, keys, k + 1, take, b)
  }

  /** GetItemsToReduce over the scheduled reductions of the view at `level`. */
  function ItemsToReduce(e: Expand, scheduled: seq<ScheduledRow>, keys: seq<string>, take: int): Outcome<Batch>
  {
    ItemsFrom(e, scheduled, keys, 0, take, Batch([], []))
  }

  /** After a key whose range is not empty and whose scan succeeded, the
      batch has grown by the key's results and reader, and the loop goes on
      exactly when budget is left. */
  lemma KeyStepScanned(e: Expand, scheduled: seq<ScheduledRow>, keys: seq<string>, k: nat, take: int, acc: Batch)
    requires k < |keys|
    ensures KeyRange(e.env, scheduled, e.view, e.level, keys[k]) == [] ==> KeyStep(e, scheduled, keys, k, take, acc) == Stop(acc)
    ensures var range := KeyRange(e.env, scheduled, e.view, e.level, keys[k]);
      var st := KeyStep(e, scheduled, keys, k, take, acc);
      |range| > 0 && !st.Broken? ==>
        var ks := KeyScan(e, keys[k], range, 0, take - |acc.results|, ScanState([], [], []));
        && ks.Ok?
        && st.batch == Batch(acc.results + ks.value.out, acc.readers + [ks.value.reader])
        && (st.Continue? <==> take - |st.batch.results| > 0)
  {
  }

  /** The batch keeps the readers it was given and adds at most one per
      remaining key. */
  lemma {:induction false} ItemsFromGrows(e: Expand, scheduled: seq<ScheduledRow>, keys: seq<string>, k: nat, take: int, acc: Batch)
    requires k <= |keys| && |acc.readers| == k
    decreases |keys| - k
    ensures var r := ItemsFrom(e, scheduled, keys, k, take, acc);
      r.Ok? ==> k <= |r.value.readers| <= |keys| && r.value.readers[..k] == acc.readers
  {
    if k < |keys| {
      KeyStepGrows(e, scheduled, keys, k, take, acc);
      var st := KeyStep(e, scheduled, keys, k, take, acc);
      match st
      case Broken(err) =>
        assert ItemsFrom(e, scheduled, keys, k, take, acc) == Fail(err);
      case Stop(b) =>
        assert ItemsFrom(e, scheduled, keys, k, take, acc) == Ok(b);
        assert b.readers[..k] == acc.readers;
      case Continue(b) =>
        assert ItemsFrom(e, scheduled, keys, k, take, acc) == ItemsFrom(e, scheduled, keys, k + 1, take, b);
        ItemsFromGrows(e, scheduled, keys, k + 1, take, b);
        var r := ItemsFrom(e, scheduled, keys, k + 1, take, b);
        if r.Ok? {
          assert r.value.readers[..k] == r.value.readers[..k + 1][..k];
        }
    } else {
      assert acc.readers[..k] == acc.readers;
    }
  }

  /** One key's step leaves the readers as they were or adds one. */
  lemma KeyStepGrows(e: Expand, scheduled: seq<ScheduledRow>, keys: seq<string>, k: nat, take: int, acc: Batch)
    requires k < |keys|
    ensures var st := KeyStep(e, scheduled, keys, k, take, acc);
      && (!st.Broken? ==> |acc.readers| <= |st.batch.readers| <= |acc.readers| + 1 && st.batch.readers[..|acc.readers|] == acc.readers)
      && (st.Continue? ==> |st.batch.readers| == |acc.readers| + 1)
  {
    KeyStepScanned(e, scheduled, keys, k, take, acc);
    assert acc.readers[..|acc.readers|] == acc.readers;
  }

  /** One key's step adds one reader, a prefix of that key's matching rows,
      and leaves the earlier readers alone. */
  lemma KeyStepReaderPrefix(e: Expand, scheduled: seq<ScheduledRow>, keys: seq<string>, k: nat, take: int, acc: Batch, i: nat)
    requires k < |keys| && |acc.readers| == k
    requires i < k ==> IsPrefix(acc.readers[i], KeyMatches(e.env, scheduled, e.view, e.level, keys[i]))
    ensures var st := KeyStep(e, scheduled, keys, k, take, acc);
      !st.Broken? && i < |st.batch.readers| ==>
        |st.batch.readers| <= k + 1 && IsPrefix(st.batch.readers[i], KeyMatches(e.env, scheduled, e.view, e.level, keys[i]))
  {
    KeyStepScanned(e, scheduled, keys, k, take, acc);
    var st := KeyStep(e, scheduled, keys, k, take, acc);
    var range := KeyRange(e.env, scheduled, e.view, e.level, keys[k]);
    if |range| > 0 && !st.Broken? {
      var st0 := ScanState([], [], []);
      var ks := KeyScan(e, keys[k], range, 0, take - |acc.results|, st0);
      assert range[..0] == [];
      KeyScanReaderPrefix(e, keys[k], range, 0, take - |acc.results|, st0);
      assert st.batch.readers == acc.readers + [ks.value.reader];
      if i < k {
        assert st.batch.readers[i] == acc.readers[i];
      } else if i == k {
        assert st.batch.readers[i] == ks.value.reader;
      }
    }
  }

  /** Reader i holds a prefix of the matching rows of key i, in order. */
  lemma {:induction false} ItemsFromReaderPrefix(e: Expand, scheduled: seq<ScheduledRow>, keys: seq<string>, k: nat, take: int, acc: Batch, i: nat)
    requires k <= |keys| && |acc.readers| == k
    requires i < k ==> IsPrefix(acc.readers[i], KeyMatches(e.env, scheduled, e.view, e.level, keys[i]))
    decreases |keys| - k
    ensures var r := ItemsFrom(e, scheduled, keys, k, take, acc);
      r.Ok? && i < |r.value.readers| ==>
        i < |keys| && IsPrefix(r.value.readers[i], KeyMatches(e.env, scheduled, e.view, e.level, keys[i]))
  {
    if k < |keys| {
      KeyStepScanned(e, scheduled, keys, k, take, acc);
      KeyStepReaderPrefix(e, scheduled, keys, k, take, acc, i);
      var st := KeyStep(e, scheduled, keys, k, take, acc);
      if st.Continue? {
        assert |st.batch.readers| == k + 1;
        ItemsFromReaderPrefix(e, scheduled, keys, k + 1, take, st.batch, i);
      }
    }
  }

  /** Reader i holds all the matching rows of key i, unless it is the last
      reader and the budget is spent. */
  lemma {:induction false} ItemsFromReaderComplete(e: Expand, scheduled: seq<ScheduledRow>, keys: seq<string>, k: nat, take: int, acc: Batch, i: nat)
    requires k <= |keys| && |acc.readers| == k
    requires i < k ==> acc.readers[i] == KeyMatches(e.env, scheduled, e.view, e.level, keys[i])
    decreases |keys| - k
    ensures var r := ItemsFrom(e, scheduled, keys, k, take, acc);
      r.Ok? && i < |r.value.readers| && i < |keys| ==>
        || r.value.readers[i] == KeyMatches(e.env, scheduled, e.view, e.level, keys[i])
        || (i == |r.value.readers| - 1 && |r.value.results| >= take)
  {
    if k == |keys| {
      assert ItemsFrom(e, scheduled, keys, k, take, acc) == Ok(acc);
    } else if KeyStep(e, scheduled, keys, k, take, acc).Continue? {
      KeyStepReader(e, scheduled, keys, k, take, acc);
      var b := KeyStep(e, scheduled, keys, k, take, acc).batch;
      assert ItemsFrom(e, scheduled, keys, k, take, acc) == ItemsFrom(e, scheduled, keys, k + 1, take, b);
      if i < k {
        assert b.readers[i] == b.readers[..k][i];
      }
      ItemsFromReaderComplete(e, scheduled, keys, k + 1, take, b, i);
    } else {
      ItemsFromEndsHere(e, scheduled, keys, k, take, acc, i);
    }
  }

  /** The case of ItemsFromReaderComplete where the walk ends at key k. */
  lemma ItemsFromEndsHere(e: Expand, scheduled: seq<ScheduledRow>, keys: seq<string>, k: nat, take: int, acc: Batch, i: nat)
    requires k < |keys| && |acc.readers| == k && !KeyStep(e, scheduled, keys, k, take, acc).Continue?
    requires i < k ==> acc.readers[i] == KeyMatches(e.env, scheduled, e.view, e.level, keys[i])
    ensures var r := ItemsFrom(e, scheduled, keys, k, take, acc);
      r.Ok? && i < |r.value.readers| && i < |keys| ==>
        || r.value.readers[i] == KeyMatches(e.env, scheduled, e.view, e.level, keys[i])
        || (i == |r.value.readers| - 1 && |r.value.results| >= take)
  {
    KeyStepReader(e, scheduled, keys, k, take, acc);
    var st := KeyStep(e, scheduled, keys, k, take, acc);
    if st.Stop? {
      var b := st.batch;
      assert ItemsFrom(e, scheduled, keys, k, take, acc) == Ok(b);
      if KeyRange(e.env, scheduled, e.view, e.level, keys[k]) != [] {
        assert |b.readers| == k + 1;
        if i < k {
          assert b.readers[i] == b.readers[..k][i];
        }
      }
    } else {
      assert ItemsFrom(e, scheduled, keys, k, take, acc) == Fail(st.error);
    }
  }

  /** The scan of one key's range adds that key's reader after the earlier
      ones; it is complete unless the budget ran out, and always complete
      when the walk goes on to the next key. */
  lemma KeyStepReader(e: Expand, scheduled: seq<ScheduledRow>, keys: seq<string>, k: nat, take: int, acc: Batch)
    requires k < |keys| && |acc.readers| == k
    ensures var st := KeyStep(e, scheduled, keys, k, take, acc);
      var m := KeyMatches(e.env, scheduled, e.view, e.level, keys[k]);
      && (KeyRange(e.env, scheduled, e.view, e.level, keys[k]) == [] ==> st == Stop(acc))
      && (KeyRange(e.env, scheduled, e.view, e.level, keys[k]) != [] && !st.Broken? ==>
            && |st.batch.readers| == k + 1 && st.batch.readers[..k] == acc.readers
            && (st.batch.readers[k] == m || |st.batch.results| >= take)
            && (st.Continue? ==> st.batch.readers[k] == m))
  {
    KeyStepScanned(e, scheduled, keys, k, take, acc);
    var st := KeyStep(e, scheduled, keys, k, take, acc);
    var range := KeyRange(e.env, scheduled, e.view, e.level, keys[k]);
    if |range| > 0 && !st.Broken? {
      var st0 := ScanState([], [], []);
      var budget := take - |acc.results|;
      var s := KeyScan(e, keys[k], range, 0, budget, st0).value;
      assert range[..0] == [];
      KeyScanReaderComplete(e, keys[k], range, 0, budget, st0);
      assert |s.out| < budget ==> s.reader == KeyMatches(e.env, scheduled, e.view, e.level, keys[k]);
      assert st.batch.readers == acc.readers + [s.reader];
      assert st.batch.readers[..k] == acc.readers;
    }
  }

  /** The enumeration stops before the last requested key only when the
      budget is spent or a key has no scheduled row at all. */
  lemma {:induction false} ItemsFromStops(e: Expand, scheduled: seq<ScheduledRow>, keys: seq<string>, k: nat, take: int, acc: Batch)
    requires k <= |keys| && |acc.readers| == k
    decreases |keys| - k
    ensures var r := ItemsFrom(e, scheduled, keys, k, take, acc);
      r.Ok? && |r.value.readers| < |keys| ==>
        |r.value.results| >= take || KeyRange(e.env, scheduled, e.view, e.level, keys[|r.value.readers|]) == []
  {
    if k < |keys| {
      KeyStepScanned(e, scheduled, keys, k, take, acc);
      var st := KeyStep(e, scheduled, keys, k, take, acc);
      if st.Continue? {
        ItemsFromStops(e, scheduled, keys, k + 1, take, st.batch);
      }
    }
  }

  /** The results are the readers' distinct pairs, expanded in order: within
      one requested key each (reduce key, bucket) pair is expanded once. */
  lemma {:induction false} ItemsFromResults(e: Expand, scheduled: seq<ScheduledRow>, keys: seq<string>, k: nat, take: int, acc: Batch)
    requires k <= |keys|
    requires FetchAll(e, acc.readers) == Ok(acc.results)
    decreases |keys| - k
    ensures var r := ItemsFrom(e, scheduled, keys, k, take, acc);
      r.Ok? ==> FetchAll(e, r.value.readers) == Ok(r.value.results)
  {
    if k < |keys| {
      KeyStepScanned(e, scheduled, keys, k, take, acc);
      var st := KeyStep(e, scheduled, keys, k, take, acc);
      var range := KeyRange(e.env, scheduled, e.view, e.level, keys[k]);
      if |range| > 0 && !st.Broken? {
        KeyScanKeeps(e, keys[k], range, 0, take - |acc.results|, ScanState([], [], []));
        assert st.batch.readers[..|st.batch.readers| - 1] == acc.readers;
        assert FetchAll(e, st.batch.readers) == Ok(st.batch.results);
      }
      if st.Continue? {
        ItemsFromResults(e, scheduled, keys, k + 1, take, st.batch);
      }
    }
  }

  // ---- DeleteScheduledReduction ----

  /** The rows of itemsToDelete, reader after reader. A reader hands out its
      rows sorted by bookmark, that is in the table's primary-key order,
      which is the order in which the model's readers already hold them. */
  function Flatten(readers: seq<seq<ScheduledRow>>): seq<ScheduledRow>
  {
    if |readers| == 0 then [] else Flatten(readers[..|readers| - 1]) + readers[|readers| - 1]
  }

  /** The result of DeleteScheduledReduction: the last visited row whose
      etag is above Guid.Empty. The etag compared against is never raised,
      so this is the last such row, not the one with the largest etag. */
  function LastPositive(rows: seq<ScheduledRow>): (r: Option<ScheduledRow>)
    ensures r.None? <==> forall x :: x in rows ==> x.etag == 0
    ensures r.Some? ==> r.value in rows && r.value.etag > 0
  {
    if |rows| == 0 then None
    else
      var x := rows[|rows| - 1];
      assert forall z :: z in rows <==> z in rows[..|rows| - 1] || z == x;
      if x.etag > 0 then Some(x) else LastPositive(rows[..|rows| - 1])
  }

  /** One more visited row. */
  lemma LastPositiveSnoc(rows: seq<ScheduledRow>, x: ScheduledRow)
    ensures LastPositive(rows + [x]) == if x.etag > 0 then Some(x) else LastPositive(rows)
  {
    assert (rows + [x])[..|rows|] == rows;
  }

  /** No row with a positive etag comes after the result. */
  lemma {:induction false} LastPositiveIsLast(rows: seq<ScheduledRow>, j: nat)
    requires j < |rows| && rows[j].etag > 0
    ensures LastPositive(rows).Some?
    ensures rows[j] == LastPositive(rows).value || LastPositive(rows).value in rows[j + 1..]
  {
    var n := |rows| - 1;
    if rows[n].etag == 0 {
      var r0 := rows[..n];
      assert r0[j] == rows[j];
      LastPositiveIsLast(r0, j);
      assert r0[j + 1..] == rows[j + 1..n];
    } else if j < n {
      assert rows[n] in rows[j + 1..];
    }
  }

  /** Deleting the visited rows one by one, each through its bookmark. The
      flag is false when a bookmark leads to a row that is already gone
      (the rows deleted before that stay deleted). */
  function Retire(table: seq<ScheduledRow>, rows: seq<ScheduledRow>): (r: (seq<ScheduledRow>, bool))
    ensures r.1 <==> NoDuplicates(rows) && forall x :: x in rows ==> x in table
    ensures r.1 ==> r.0 == Filter(table, NotIn(rows))
  {
    if |rows| == 0 then
      FilterAll(table, NotIn(rows));
      (table, true)
    else
      var rows0, x := rows[..|rows| - 1], rows[|rows| - 1];
      var prev := Retire(table, rows0);
      assert rows == rows0 + [x];
      if !prev.1 then (assert !NoDuplicates(rows0) || exists y :: y in rows0 && y !in table; prev)
      else if x in prev.0 then
        RemoveOneMore(table, rows0, x);
        (Remove(prev.0, x), true)
      else
        SnocDuplicate(rows0, x);
        assert x in table && NotIn(rows0)(x) ==> x in prev.0;
        (prev.0, false)
  }

  /** One more visited row: it is deleted if it is still there, and the
      call fails otherwise. */
  lemma RetireSnoc(table: seq<ScheduledRow>, rows: seq<ScheduledRow>, x: ScheduledRow)
    requires Retire(table, rows).1
    ensures var prev := Retire(table, rows).0;
      Retire(table, rows + [x]) == if x in prev then (Remove(prev, x), true) else (prev, false)
  {
    assert (rows + [x])[..|rows|] == rows;
  }

  /** Visiting row i of `rows` during DeleteScheduledReduction. */
  lemma VisitStep(table: seq<ScheduledRow>, rows: seq<ScheduledRow>, i: nat)
    requires i < |rows| && Retire(table, rows[..i]).1
    ensures var prev := Retire(table, rows[..i]).0;
      Retire(table, rows[..i + 1]) == if rows[i] in prev then (Remove(prev, rows[i]), true) else (prev, false)
    ensures LastPositive(rows[..i + 1]) == if rows[i].etag > 0 then Some(rows[i]) else LastPositive(rows[..i])
  {
    assert rows[..i + 1] == rows[..i] + [rows[i]];
    RetireSnoc(table, rows[..i], rows[i]);
    LastPositiveSnoc(rows[..i], rows[i]);
  }

  /** Retiring rows only deletes: what is left is a subsequence of the
      table, so the etag order of the table is kept. */
  lemma {:induction false} RetireKeeps(table: seq<ScheduledRow>, rows: seq<ScheduledRow>)
    ensures forall x :: x in Retire(table, rows).0 ==> x in table
    ensures Ascending(table, ScheduledEtag) ==> Ascending(Retire(table, rows).0, ScheduledEtag)
  {
    if |rows| > 0 {
      var rows0, x := rows[..|rows| - 1], rows[|rows| - 1];
      RetireKeeps(table, rows0);
      var prev := Retire(table, rows0);
      if prev.1 && x in prev.0 {
        if Ascending(table, ScheduledEtag) {
          FilterAscending(prev.0, Other(x), ScheduledEtag);
        }
      }
    }
  }

  /** Once a bookmark fails, the rows after it are not visited. */
  lemma {:induction false} RetireStops(table: seq<ScheduledRow>, rows: seq<ScheduledRow>, m: nat)
    requires m <= |rows| && !Retire(table, rows[..m]).1
    ensures Retire(table, rows) == Retire(table, rows[..m])
  {
    if m == |rows| {
      assert rows[..m] == rows;
    } else {
      var rows0 := rows[..|rows| - 1];
      assert rows0[..m] == rows[..m];
      RetireStops(table, rows0, m);
    }
  }

  /** The etag and timestamp DeleteScheduledReduction reports for a row. */
  function ReductionInfoOf(x: ScheduledRow): ScheduledReductionInfo
  {
    ScheduledReductionInfo(x.etag, x.timestamp)
  }
}
