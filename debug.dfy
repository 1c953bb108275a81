/** The debug scans: GetKeysForIndexForDebug, GetMappedResultsForDebug and
    GetReducedResultsForDebug. Each seeks to the first entry at or after
    the view in an index order, then walks on row by row: a row before the
    view (comparing ignoring case) is skipped, a row after it ends the
    walk, and the walk also ends at the last row or once `take` rows have
    been yielded. */
module Debug {
  import opened Common
  import opened Schema

  /** What the loop body does with a row. */
  datatype Action = Skip | Halt | Yield

  /** The do/while loop from index `i` with budget `take`: a yielded row
      spends one unit of the budget, and the loop goes on while there is a
      next row and budget left. */
  function ScanFrom<T, U>(order: seq<T>, i: nat, step: T -> Action, out: T -> U, take: int): seq<U>
    requires i < |order|
    decreases |order| - i
  {
    var s := step(order[i]);
    if s.Halt? then []
    else
      var here := if s.Yield? then [out(order[i])] else [];
      var left := if s.Yield? then take - 1 else take;
      here + (if i + 1 < |order| && left > 0 then ScanFrom(order, i + 1, step, out, left) else [])
  }

  /** One row of the scan, with the budget still positive. */
  lemma ScanFromStep<T, U>(order: seq<T>, i: nat, step: T -> Action, out: T -> U, take: int)
    requires i < |order|
    ensures var r := ScanFrom(order, i, step, out, take);
      && (step(order[i]).Halt? ==> r == [])
      && (step(order[i]).Skip? ==> r == if i + 1 < |order| && take > 0 then ScanFrom(order, i + 1, step, out, take) else [])
      && (step(order[i]).Yield? ==>
            r == [out(order[i])] + if i + 1 < |order| && take - 1 > 0 then ScanFrom(order, i + 1, step, out, take - 1) else [])
  {
  }

  /** A walk that keeps `acc + ScanFrom(...) == all` ends at a row the
      step halts on with everything collected. */
  lemma ScanFromHalt<T, U>(order: seq<T>, i: nat, step: T -> Action, out: T -> U, take: int, acc: seq<U>, all: seq<U>)
    requires i < |order| && step(order[i]).Halt?
    requires acc + ScanFrom(order, i, step, out, take) == all
    ensures acc == all
  {
    assert ScanFrom(order, i, step, out, take) == [];
    assert acc + [] == acc;
  }

  /** A yielded row moves to the walk's output, and the walk goes on from
      the next row with one unit less, or ends. */
  lemma ScanFromYield<T, U>(order: seq<T>, i: nat, step: T -> Action, out: T -> U, take: int, acc: seq<U>, all: seq<U>)
    requires i < |order| && step(order[i]).Yield?
    requires acc + ScanFrom(order, i, step, out, take) == all
    ensures i + 1 < |order| && take - 1 > 0 ==> (acc + [out(order[i])]) + ScanFrom(order, i + 1, step, out, take - 1) == all
    ensures !(i + 1 < |order| && take - 1 > 0) ==> acc + [out(order[i])] == all
  {
    var rest := if i + 1 < |order| && take - 1 > 0 then ScanFrom(order, i + 1, step, out, take - 1) else [];
    assert ScanFrom(order, i, step, out, take) == [out(order[i])] + rest;
    assert acc + ([out(order[i])] + rest) == (acc + [out(order[i])]) + rest;
    assert rest == [] ==> (acc + [out(order[i])]) + rest == acc + [out(order[i])];
  }

  /** A skipped row leaves the output and the budget as they are. */
  lemma ScanFromSkip<T, U>(order: seq<T>, i: nat, step: T -> Action, out: T -> U, take: int, acc: seq<U>, all: seq<U>)
    requires i < |order| && step(order[i]).Skip?
    requires acc + ScanFrom(order, i, step, out, take) == all
    ensures i + 1 < |order| && take > 0 ==> acc + ScanFrom(order, i + 1, step, out, take) == all
    ensures !(i + 1 < |order| && take > 0) ==> acc == all
  {
    var rest := if i + 1 < |order| && take > 0 then ScanFrom(order, i + 1, step, out, take) else [];
    assert ScanFrom(order, i, step, out, take) == rest;
    assert rest == [] ==> acc + rest == acc;
  }

  function IsYield<T>(step: T -> Action): T -> bool
  {
    x => step(x).Yield?
  }

  /** The scan yields at most `take` records, each the image of a row the
      step function yields, at or after `i`. */
  lemma {:induction false} ScanBound<T, U>(order: seq<T>, i: nat, step: T -> Action, out: T -> U, take: int)
    requires i < |order| && take >= 1
    ensures var r := ScanFrom(order, i, step, out, take);
      && |r| <= take
      && forall y :: y in r ==> exists k :: i <= k < |order| && step(order[k]).Yield? && y == out(order[k])
    decreases |order| - i
  {
    var s := step(order[i]);
    if !s.Halt? {
      var left := if s.Yield? then take - 1 else take;
      if i + 1 < |order| && left > 0 {
        ScanBound(order, i + 1, step, out, left);
      }
    }
  }

  /** With no row after `i` that ends the walk and a budget as large as the
      rows left, the scan yields exactly the yielding rows, in index order. */
  lemma {:induction false} ScanAll<T, U>(order: seq<T>, i: nat, step: T -> Action, out: T -> U, take: int)
    requires i < |order| && take >= |order| - i
    requires forall k :: i <= k < |order| ==> !step(order[k]).Halt?
    ensures ScanFrom(order, i, step, out, take) == FilterMap(order[i..], IsYield(step), out)
    decreases |order| - i
  {
    var s := step(order[i]);
    var left := if s.Yield? then take - 1 else take;
    assert order[i..] == [order[i]] + order[i + 1..];
    FilterMapCons(order[i], order[i + 1..], IsYield(step), out);
    if i + 1 < |order| {
      ScanAll(order, i + 1, step, out, left);
    } else {
      assert order[i + 1..] == [];
    }
  }

  /** The last index below `i` whose element satisfies `p`: where a cursor
      moving backwards stops. */
  function LastWhere<T>(s: seq<T>, p: T -> bool, i: nat): (r: Option<nat>)
    requires i <= |s|
    ensures r.Some? ==> r.value < i && p(s[r.value])
    ensures r.Some? ==> forall j :: r.value < j < i ==> !p(s[j])
    ensures r.None? ==> forall j :: 0 <= j < i ==> !p(s[j])
  {
    if i == 0 then None
    else if p(s[i - 1]) then Some(i - 1)
    else LastWhere(s, p, i - 1)
  }

  /** The key of index by_view_reduce_key_and_bucket for a mapped row. */
  function EntryKey(env: Env, r: MappedRow): (string, string, int)
  {
    (IndexKey(env, r.view), IndexKey(env, r.reduceKey), r.bucket)
  }

  function KeyDiffers(env: Env, k: (string, string, int)): MappedRow -> bool
  {
    (r: MappedRow) => EntryKey(env, r) != k
  }

  /** JetMove by `n` with MoveKeyNE from entry `p`: each unit moves to the
      nearest entry, forwards or backwards, whose key differs from the
      current one; running off either end is NoCurrentRecord. */
  function MoveKeyNE(env: Env, order: seq<MappedRow>, p: nat, n: int): (r: Option<nat>)
    requires p < |order|
    ensures r.Some? ==> r.value < |order|
    ensures n == 0 ==> r == Some(p)
    decreases if n >= 0 then n else -n
  {
    if n == 0 then Some(p)
    else
      var q := if n > 0 then FirstWhere(order, KeyDiffers(env, EntryKey(env, order[p])), p + 1)
               else LastWhere(order, KeyDiffers(env, EntryKey(env, order[p])), p);
      match q
      case None => None
      case Some(q) => MoveKeyNE(env, order, q, if n > 0 then n - 1 else n + 1)
  }

  /** The seek of the view: the first entry at or after it. */
  function AtOrAfterView(env: Env, view: string): MappedRow -> bool
  {
    (r: MappedRow) => env.compare(r.view, view) >= 0
  }

  /** What the loop of GetKeysForIndexForDebug does with row x: a later
      view ends it, a reduce key of the view not yet in `seen` (an ordinal
      set) is yielded, anything else is skipped. */
  function KeysAction(env: Env, view: string, seen: seq<string>, x: MappedRow): Action
  {
    var c := env.compare(x.view, view);
    if c > 0 then Halt
    else if c == 0 && x.reduceKey !in seen then Yield
    else Skip
  }

  /** The loop of GetKeysForIndexForDebug from entry `i`, given the keys
      already in its HashSet: the contents of the set when the loop ends.
      A yielded key spends one unit of `take`; the loop goes on while there
      is a next row and budget left. */
  function KeysScan(env: Env, order: seq<MappedRow>, i: nat, view: string, take: int, seen: seq<string>): seq<string>
    requires i < |order|
    decreases |order| - i
  {
    var a := KeysAction(env, view, seen, order[i]);
    if a.Halt? then seen
    else
      var seen' := if a.Yield? then seen + [order[i].reduceKey] else seen;
      var left := if a.Yield? then take - 1 else take;
      if i + 1 < |order| && left > 0 then KeysScan(env, order, i + 1, view, left, seen') else seen'
  }

  /** Adding a key that is not in a duplicate-free set keeps it free of
      duplicates and extends it. */
  lemma AddNewKey(seen: seq<string>, y: string)
    requires NoDuplicates(seen) && y !in seen
    ensures NoDuplicates(seen + [y])
  {
    var t := seen + [y];
    forall a, b | 0 <= a < b < |t|
      ensures t[a] != t[b]
    {
      if b == |seen| {
        assert t[a] == seen[a] && seen[a] in seen;
      } else {
        assert t[a] == seen[a] && t[b] == seen[b];
      }
    }
  }

  /** GetKeysForIndexForDebug over the mapped rows in index order. */
  function KeysForIndexForDebug(env: Env, order: seq<MappedRow>, view: string, start: int, take: int): seq<string>
  {
    if take <= 0 then []
    else match FirstWhere(order, AtOrAfterView(env, view), 0)
      case None => []
      case Some(p) =>
        match MoveKeyNE(env, order, p, start)
        case None => []
        case Some(q) => KeysScan(env, order, q, view, take, [])
  }

  /** `y` is the reduce key of a row of the view at or after `i`. */
  ghost predicate RowKeyOfView(env: Env, order: seq<MappedRow>, i: nat, view: string, y: string)
  {
    exists j :: i <= j < |order| && env.compare(order[j].view, view) == 0 && order[j].reduceKey == y
  }

  /** The keys walk keeps the keys it started with, adds at most `take`
      more, never adds a key twice, and adds only reduce keys of rows of
      the view at or after `i`. */
  lemma {:induction false} KeysScanSpec(env: Env, order: seq<MappedRow>, i: nat, view: string, take: int, seen: seq<string>)
    requires i < |order| && take >= 1
    ensures var r := KeysScan(env, order, i, view, take, seen);
      && IsPrefix(seen, r)
      && |r| <= |seen| + take
      && (NoDuplicates(seen) ==> NoDuplicates(r))
      && (forall k :: |seen| <= k < |r| ==> RowKeyOfView(env, order, i, view, r[k]))
    decreases |order| - i
  {
    var x := order[i];
    var a := KeysAction(env, view, seen, x);
    var r := KeysScan(env, order, i, view, take, seen);
    if !a.Halt? {
      var seen' := if a.Yield? then seen + [x.reduceKey] else seen;
      var left := if a.Yield? then take - 1 else take;
      assert seen'[..|seen|] == seen;
      if a.Yield? && NoDuplicates(seen) {
        AddNewKey(seen, x.reduceKey);
      }
      if a.Yield? {
        assert RowKeyOfView(env, order, i, view, x.reduceKey) by {
          assert env.compare(order[i].view, view) == 0;
        }
      }
      if i + 1 < |order| && left > 0 {
        KeysScanSpec(env, order, i + 1, view, left, seen');
        assert r == KeysScan(env, order, i + 1, view, left, seen');
        assert r[..|seen|] == r[..|seen'|][..|seen|];
        forall k | |seen| <= k < |r|
          ensures RowKeyOfView(env, order, i, view, r[k])
        {
          if k < |seen'| {
            assert r[k] == seen'[k] == x.reduceKey;
          } else {
            assert RowKeyOfView(env, order, i + 1, view, KeysScan(env, order, i + 1, view, left, seen')[k]);
            var j :| i + 1 <= j < |order| && env.compare(order[j].view, view) == 0 && order[j].reduceKey == r[k];
          }
        }
      } else {
        assert r == seen';
        forall k | |seen| <= k < |r|
          ensures RowKeyOfView(env, order, i, view, r[k])
        {
          assert r[k] == x.reduceKey;
        }
      }
    }
  }

  /** With no row of a later view and a budget as large as the rows left,
      every reduce key of a row of the view ends up in the set. */
  lemma {:induction false} KeysScanComplete(env: Env, order: seq<MappedRow>, i: nat, view: string, take: int, seen: seq<string>)
    requires i < |order| && take >= |order| - i
    requires forall k :: i <= k < |order| ==> env.compare(order[k].view, view) <= 0
    ensures forall y :: y in seen ==> y in KeysScan(env, order, i, view, take, seen)
    ensures forall k :: i <= k < |order| && env.compare(order[k].view, view) == 0 ==>
      order[k].reduceKey in KeysScan(env, order, i, view, take, seen)
    decreases |order| - i
  {
    var x := order[i];
    var a := KeysAction(env, view, seen, x);
    assert !a.Halt?;
    var seen' := if a.Yield? then seen + [x.reduceKey] else seen;
    var left := if a.Yield? then take - 1 else take;
    var r := KeysScan(env, order, i, view, take, seen);
    assert env.compare(x.view, view) == 0 ==> x.reduceKey in seen';
    if i + 1 < |order| {
      KeysScanComplete(env, order, i + 1, view, left, seen');
      assert r == KeysScan(env, order, i + 1, view, left, seen');
    } else {
      assert r == seen';
    }
  }

  /** GetMappedResultsForDebug: rows of the view whose reduce key equals
      `key` ignoring case. */
  function MappedDebugStep(env: Env, view: string, key: string): MappedRow -> Action
  {
    (r: MappedRow) =>
      var c := env.compare(r.view, view);
      if c < 0 then Skip
      else if c > 0 then Halt
      else if env.compare(key, r.reduceKey) != 0 then Skip
      else Yield
  }

  /** The record of a mapped row: its data loaded, its document as source. */
  function MappedDebugInfo(r: MappedRow): MappedResultInfo
  {
    MappedResultInfo(r.reduceKey, r.bucket, r.etag, r.timestamp, Some(r.data), |r.data|, FromDocument(r.docId))
  }

  function MappedResultsForDebug(env: Env, order: seq<MappedRow>, view: string, key: string, take: int): seq<MappedResultInfo>
  {
    if take <= 0 then []
    else match FirstWhere(order, AtOrAfterView(env, view), 0)
      case None => []
      case Some(p) => ScanFrom(order, p, MappedDebugStep(env, view, key), MappedDebugInfo, take)
  }

  /** At most `take` records (none when take <= 0), each from a row of the
      view whose key equals `key` ignoring case. */
  lemma MappedResultsForDebugSpec(env: Env, order: seq<MappedRow>, view: string, key: string, take: int)
    ensures var r := MappedResultsForDebug(env, order, view, key, take);
      && (take <= 0 ==> r == [])
      && |r| <= (if take <= 0 then 0 else take)
      && forall y :: y in r ==> (exists x ::
             x in order && env.compare(x.view, view) == 0 && env.compare(key, x.reduceKey) == 0 && y == MappedDebugInfo(x))
  {
    if take > 0 {
      var landing := FirstWhere(order, AtOrAfterView(env, view), 0);
      if landing.Some? {
        ScanBound(order, landing.value, MappedDebugStep(env, view, key), MappedDebugInfo, take);
      }
    }
  }

  /** When every row of the table is at or before the view and `take`
      covers the table, the records are those of the view's rows with the
      key, in index order. */
  lemma MappedResultsForDebugAll(env: Env, order: seq<MappedRow>, view: string, key: string, take: int)
    requires take >= |order|
    requires forall k :: 0 <= k < |order| ==> env.compare(order[k].view, view) <= 0
    ensures MappedResultsForDebug(env, order, view, key, take)
      == FilterMap(order, IsYield(MappedDebugStep(env, view, key)), MappedDebugInfo)
  {
    var landing := FirstWhere(order, AtOrAfterView(env, view), 0);
    var step := MappedDebugStep(env, view, key);
    if landing.Some? {
      var p := landing.value;
      ScanAll(order, p, step, MappedDebugInfo, take);
      FilterMapSkip(order, p, IsYield(step), MappedDebugInfo);
    } else {
      FilterMapSkip(order, |order|, IsYield(step), MappedDebugInfo);
      assert order[|order|..] == [];
    }
  }

  /** GetReducedResultsForDebug: rows of the view and level whose reduce key
      equals `key` ignoring case. */
  function ReducedDebugStep(env: Env, view: string, level: int, key: string): ReducedRow -> Action
  {
    (r: ReducedRow) =>
      var c := env.compare(r.view, view);
      if c < 0 then Skip
      else if c > 0 then Halt
      else if r.level < level then Skip
      else if r.level > level then Halt
      else if env.compare(key, r.reduceKey) != 0 then Skip
      else Yield
  }

  /** The seek of (view, level): the first entry at or after it. */
  function AtOrAfterViewLevel(env: Env, view: string, level: int): ReducedRow -> bool
  {
    (r: ReducedRow) =>
      var c := env.compare(r.view, view);
      c > 0 || (c == 0 && r.level >= level)
  }

  /** The record of a reduced row: its data loaded, its source bucket. */
  function ReducedDebugInfo(r: ReducedRow): MappedResultInfo
  {
    MappedResultInfo(r.reduceKey, r.bucket, r.etag, r.timestamp, Some(r.data), |r.data|, FromBucket(r.sourceBucket))
  }

  function ReducedResultsForDebug(env: Env, order: seq<ReducedRow>, view: string, key: string, level: int, take: int): seq<MappedResultInfo>
  {
    if take <= 0 then []
    else match FirstWhere(order, AtOrAfterViewLevel(env, view, level), 0)
      case None => []
      case Some(p) => ScanFrom(order, p, ReducedDebugStep(env, view, level, key), ReducedDebugInfo, take)
  }

  /** At most `take` records (none when take <= 0), each from a row of the
      view and level whose key equals `key` ignoring case. */
  lemma ReducedResultsForDebugSpec(env: Env, order: seq<ReducedRow>, view: string, key: string, level: int, take: int)
    ensures var r := ReducedResultsForDebug(env, order, view, key, level, take);
      && (take <= 0 ==> r == [])
      && |r| <= (if take <= 0 then 0 else take)
      && forall y :: y in r ==> (exists x ::
             x in order && env.compare(x.view, view) == 0 && x.level == level && env.compare(key, x.reduceKey) == 0
             && y == ReducedDebugInfo(x))
  {
    if take > 0 {
      var landing := FirstWhere(order, AtOrAfterViewLevel(env, view, level), 0);
      if landing.Some? {
        ScanBound(order, landing.value, ReducedDebugStep(env, view, level, key), ReducedDebugInfo, take);
      }
    }
  }

  /** When no row of the table lies after the view and level and `take`
      covers the table, the records are those of the view's rows of that
      level with the key, in index order. */
  lemma ReducedResultsForDebugAll(env: Env, order: seq<ReducedRow>, view: string, key: string, level: int, take: int)
    requires take >= |order|
    requires forall k :: 0 <= k < |order| ==>
      var c := env.compare(order[k].view, view);
      c < 0 || (c == 0 && order[k].level <= level)
    ensures ReducedResultsForDebug(env, order, view, key, level, take)
      == FilterMap(order, IsYield(ReducedDebugStep(env, view, level, key)), ReducedDebugInfo)
  {
    var landing := FirstWhere(order, AtOrAfterViewLevel(env, view, level), 0);
    var step := ReducedDebugStep(env, view, level, key);
    if landing.Some? {
      var p := landing.value;
      ScanAll(order, p, step, ReducedDebugInfo, take);
      FilterMapSkip(order, p, IsYield(step), ReducedDebugInfo);
    } else {
      FilterMapSkip(order, |order|, IsYield(step), ReducedDebugInfo);
      assert order[|order|..] == [];
    }
  }

  /** GetKeysForIndexForDebug yields at most `take` distinct keys (none when
      take <= 0), each the reduce key of a row of the view. */
  lemma KeysForIndexForDebugSpec(env: Env, order: seq<MappedRow>, view: string, start: int, take: int)
    ensures var r := KeysForIndexForDebug(env, order, view, start, take);
      && (take <= 0 ==> r == [])
      && |r| <= (if take <= 0 then 0 else take)
      && NoDuplicates(r)
      && forall y :: y in r ==> exists x :: x in order && env.compare(x.view, view) == 0 && x.reduceKey == y
  {
    if take > 0 {
      var landing := FirstWhere(order, AtOrAfterView(env, view), 0);
      if landing.Some? {
        var q := MoveKeyNE(env, order, landing.value, start);
        if q.Some? {
          KeysScanSpec(env, order, q.value, view, take, []);
          var r := KeysScan(env, order, q.value, view, take, []);
          forall y | y in r
            ensures exists x :: x in order && env.compare(x.view, view) == 0 && x.reduceKey == y
          {
            var k :| 0 <= k < |r| && r[k] == y;
            assert RowKeyOfView(env, order, q.value, view, r[k]);
            var j :| q.value <= j < |order| && env.compare(order[j].view, view) == 0 && order[j].reduceKey == r[k];
            assert order[j] in order;
          }
        }
      }
    }
  }
}
