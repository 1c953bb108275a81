/** GetReduceTypesPerKeys: the reduce keys scheduled for a view, taken once
    each ignoring case, and for each the strategy its mapped count calls for. */
module Strategy {
  import opened Common
  import opened Schema
  import opened Counters

  /** Index by_view of the scheduled reductions, seeked at the view. */
  function SchedViewRange(env: Env, view: string): ScheduledRow -> bool
  {
    (r: ScheduledRow) => IndexKey(env, r.view) == IndexKey(env, view)
  }

  /** The per-row re-check: the view ignoring case. */
  function SchedViewHit(env: Env, view: string): ScheduledRow -> bool
  {
    (r: ScheduledRow) => SameName(env, r.view, view)
  }

  function ReduceKeyOf(r: ScheduledRow): string
  {
    r.reduceKey
  }

  /** Some name in `names` equals `x` ignoring case. */
  predicate HasName(env: Env, names: seq<string>, x: string)
  {
    exists y :: y in names && SameName(env, x, y)
  }

  /** No two names equal each other ignoring case. */
  ghost predicate DistinctNames(env: Env, names: seq<string>)
  {
    forall i, j :: 0 <= i < j < |names| ==> !SameName(env, names[i], names[j])
  }

  /** HashSet<string> with a case-insensitive comparer, filled by Add: a name
      goes in unless a name equal to it ignoring case is already there, so
      the first spelling seen is the one kept. */
  function AddNames(env: Env, acc: seq<string>, xs: seq<string>): (r: seq<string>)
    ensures DistinctNames(env, acc) ==> DistinctNames(env, r)
    ensures forall y :: y in r ==> y in acc || y in xs
    ensures forall x :: x in acc ==> x in r
  {
    if |xs| == 0 then acc
    else
      var r0 := AddNames(env, acc, xs[..|xs| - 1]);
      var x := xs[|xs| - 1];
      if HasName(env, r0, x) then r0
      else
        assert forall i :: 0 <= i < |r0| ==> r0[i] in r0 && !SameName(env, r0[i], x);
        r0 + [x]
  }

  /** One more name offered to the set. */
  lemma AddNamesSnoc(env: Env, acc: seq<string>, xs: seq<string>, x: string)
    ensures AddNames(env, acc, xs + [x])
      == if HasName(env, AddNames(env, acc, xs), x) then AddNames(env, acc, xs) else AddNames(env, acc, xs) + [x]
  {
    assert (xs + [x])[..|xs|] == xs;
  }

  /** Every added name has a representative, equal to it ignoring case. */
  lemma {:induction false} AddNamesComplete(env: Env, acc: seq<string>, xs: seq<string>, x: string)
    requires x in xs
    ensures HasName(env, AddNames(env, acc, xs), x)
  {
    var r0 := AddNames(env, acc, xs[..|xs| - 1]);
    var last := xs[|xs| - 1];
    if x == last {
      if !HasName(env, r0, x) {
        assert x in r0 + [x];
      }
    } else {
      assert x in xs[..|xs| - 1];
      AddNamesComplete(env, acc, xs[..|xs| - 1], x);
      var y :| y in r0 && SameName(env, x, y);
      assert y in AddNames(env, acc, xs);
    }
  }

  /** The keys scheduled for the view, once each ignoring case, in the
      order of their first scheduled row. */
  function ScheduledKeys(env: Env, scheduled: seq<ScheduledRow>, view: string): seq<string>
  {
    AddNames(env, [], FilterMap(Filter(scheduled, SchedViewRange(env, view)), SchedViewHit(env, view), ReduceKeyOf))
  }

  /** The keys are distinct ignoring case, every key of a scheduled row of
      the view is represented, and every key comes from such a row. */
  lemma ScheduledKeysSpec(env: Env, scheduled: seq<ScheduledRow>, view: string)
    ensures DistinctNames(env, ScheduledKeys(env, scheduled, view))
    ensures forall x :: x in scheduled && SameName(env, x.view, view) ==> HasName(env, ScheduledKeys(env, scheduled, view), x.reduceKey)
  {
    var range := Filter(scheduled, SchedViewRange(env, view));
    var keys := FilterMap(range, SchedViewHit(env, view), ReduceKeyOf);
    forall x | x in scheduled && SameName(env, x.view, view)
      ensures HasName(env, ScheduledKeys(env, scheduled, view), x.reduceKey)
    {
      assert SchedViewRange(env, view)(x);
      assert x in range;
      assert ReduceKeyOf(x) in keys;
      AddNamesComplete(env, [], keys, x.reduceKey);
    }
  }

  /** Every key comes from a scheduled row of the view. */
  lemma ScheduledKeysSound(env: Env, scheduled: seq<ScheduledRow>, view: string, k: string)
    requires k in ScheduledKeys(env, scheduled, view)
    ensures exists x :: x in scheduled && SameName(env, x.view, view) && x.reduceKey == k
  {
    var range := Filter(scheduled, SchedViewRange(env, view));
    FilterMapSound(range, SchedViewHit(env, view), ReduceKeyOf, k);
  }

  /** The strategy for a key with `count` mapped items. */
  function TypeFor(count: int, limit: int): ReduceType
  {
    if count >= limit then MultiStep else SingleStep
  }

  /** The loop over the distinct keys: GetNumberOfMappedItemsPerReduceKey for
      each (which may insert a counter row), and the strategy it calls for.
      Yields the counter table afterwards and the entries. */
  function ReduceTypesOf(env: Env, counts: seq<KeyRow<int>>, view: string, keys: seq<string>, limit: int)
    : (seq<KeyRow<int>>, seq<ReduceTypePerKey>)
  {
    if |keys| == 0 then (counts, [])
    else
      var prev := ReduceTypesOf(env, counts, view, keys[..|keys| - 1], limit);
      var key := keys[|keys| - 1];
      var read := ReadCount(env, prev.0, view, key);
      (read.0, prev.1 + [ReduceTypePerKey(key, TypeFor(read.1, limit))])
  }

  /** One more key reads its count from the table the earlier reads left. */
  lemma ReduceTypesStep(env: Env, counts: seq<KeyRow<int>>, view: string, keys: seq<string>, i: nat, limit: int)
    requires i < |keys|
    ensures var prev := ReduceTypesOf(env, counts, view, keys[..i], limit);
      var read := ReadCount(env, prev.0, view, keys[i]);
      ReduceTypesOf(env, counts, view, keys[..i + 1], limit)
        == (read.0, prev.1 + [ReduceTypePerKey(keys[i], TypeFor(read.1, limit))])
  {
    var ks := keys[..i + 1];
    assert ks[..|ks| - 1] == keys[..i];
    assert ks[|ks| - 1] == keys[i];
  }

  /** The reads leave every counter as it was, so each entry is MultiStep
      exactly when the key's count before the call reaches the limit. */
  lemma {:induction false} ReduceTypesUseCounts(env: Env, counts: seq<KeyRow<int>>, view: string, keys: seq<string>, limit: int)
    ensures var r := ReduceTypesOf(env, counts, view, keys, limit);
      && |r.1| == |keys|
      && (forall i :: 0 <= i < |keys| ==> r.1[i] == ReduceTypePerKey(keys[i], TypeFor(CounterValue(env, counts, view, keys[i]), limit)))
      && (forall v, k :: CounterValue(env, r.0, v, k) == CounterValue(env, counts, v, k))
  {
    if |keys| > 0 {
      var keys0 := keys[..|keys| - 1];
      ReduceTypesUseCounts(env, counts, view, keys0, limit);
      var prev := ReduceTypesOf(env, counts, view, keys0, limit);
      var key := keys[|keys| - 1];
      forall v, k ensures CounterValue(env, ReadCount(env, prev.0, view, key).0, v, k) == CounterValue(env, prev.0, v, k) {
        ReadCountChangesNoCount(env, prev.0, view, key, v, k);
      }
      ReadCountChangesNoCount(env, prev.0, view, key, view, key);
    }
  }

  /** The reads keep the counter table well formed. */
  lemma {:induction false} ReduceTypesKeepOk(env: Env, counts: seq<KeyRow<int>>, view: string, keys: seq<string>, limit: int)
    requires KeyTableOk(env, counts)
    ensures KeyTableOk(env, ReduceTypesOf(env, counts, view, keys, limit).0)
  {
    if |keys| > 0 {
      ReduceTypesKeepOk(env, counts, view, keys[..|keys| - 1], limit);
      var prev := ReduceTypesOf(env, counts, view, keys[..|keys| - 1], limit);
      CounterOpsKeepOk(env, prev.0, [], view, keys[|keys| - 1]);
    }
  }
}
