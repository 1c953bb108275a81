/** What the three deletions of the map/reduce tables remove: the mapped
    results of one document, the mapped results of a whole view, and the
    reduced results of one (reduce key, source bucket) pair. The counter
    updates that follow the first two are sequences of decrements. */
module Deletes {
  import opened Common
  import opened Schema
  import opened Counters

  // ---- DeleteMappedResultsForDocumentId ----

  /** Index by_view_and_doc_key, seeked at (view, document id). */
  function DocRange(env: Env, view: string, docId: string): MappedRow -> bool
  {
    (r: MappedRow) => IndexKey(env, r.view) == IndexKey(env, view) && IndexKey(env, r.docId) == IndexKey(env, docId)
  }

  /** The per-row re-check: view and document id, both ignoring case. */
  function DocHit(env: Env, view: string, docId: string): MappedRow -> bool
  {
    (r: MappedRow) => SameName(env, r.view, view) && SameName(env, r.docId, docId)
  }

  /** The rows the walk over the document's index range deletes. */
  function DocumentRows(env: Env, mapped: seq<MappedRow>, view: string, docId: string): seq<MappedRow>
  {
    Filter(Filter(mapped, DocRange(env, view, docId)), DocHit(env, view, docId))
  }

  /** The index range is coarser than the re-check, so the walk deletes
      exactly the rows whose view and document id match ignoring case. */
  lemma DocumentRowsAreHits(env: Env, mapped: seq<MappedRow>, view: string, docId: string)
    ensures DocumentRows(env, mapped, view, docId) == Filter(mapped, DocHit(env, view, docId))
  {
    FilterFilter(mapped, DocRange(env, view, docId), DocHit(env, view, docId));
    FilterExt(mapped, And(DocRange(env, view, docId), DocHit(env, view, docId)), DocHit(env, view, docId));
  }

  /** A row of the document, by the re-check, is in its index range; so the
      rows left after the walk are those that fail the re-check. */
  lemma DocRowsInRange(env: Env, mapped: seq<MappedRow>, view: string, docId: string)
    ensures Filter(mapped, Not(And(DocRange(env, view, docId), DocHit(env, view, docId))))
         == Filter(mapped, Not(DocHit(env, view, docId)))
    ensures Filter(mapped, DocRange(env, view, docId)) == [] ==>
      Filter(mapped, Not(DocHit(env, view, docId))) == mapped
  {
    FilterExt(mapped, Not(And(DocRange(env, view, docId), DocHit(env, view, docId))), Not(DocHit(env, view, docId)));
    if Filter(mapped, DocRange(env, view, docId)) == [] {
      FilterAll(mapped, Not(DocHit(env, view, docId)));
    }
  }

  function KeyAndBucketOf(r: MappedRow): ReduceKeyAndBucket
  {
    ReduceKeyAndBucket(r.bucket, r.reduceKey)
  }

  /** The (bucket, reduce key) pairs of `rows`, in order. */
  function PairsOf(rows: seq<MappedRow>): (r: seq<ReduceKeyAndBucket>)
    ensures |r| == |rows|
    ensures forall i :: 0 <= i < |rows| ==> r[i] == KeyAndBucketOf(rows[i])
  {
    seq(|rows|, i requires 0 <= i < |rows| => KeyAndBucketOf(rows[i]))
  }

  lemma PairsOfSnoc(rows: seq<MappedRow>, j: nat)
    requires j < |rows|
    ensures PairsOf(rows[..j + 1]) == PairsOf(rows[..j]) + [KeyAndBucketOf(rows[j])]
  {
  }

  /** The reduce keys of `pairs`, in order. */
  function KeysOfPairs(pairs: seq<ReduceKeyAndBucket>): (r: seq<string>)
    ensures |r| == |pairs|
    ensures forall i :: 0 <= i < |pairs| ==> r[i] == pairs[i].reduceKey
  {
    seq(|pairs|, i requires 0 <= i < |pairs| => pairs[i].reduceKey)
  }

  /** HashSet.Add of each of `xs` in turn. A set that was only added to
      enumerates in insertion order, so it is kept as a sequence. */
  function AddAll(acc: seq<ReduceKeyAndBucket>, xs: seq<ReduceKeyAndBucket>): (r: seq<ReduceKeyAndBucket>)
    ensures forall x :: x in r <==> x in acc || x in xs
    ensures NoDuplicates(acc) ==> NoDuplicates(r)
    ensures IsPrefix(acc, r)
  {
    if |xs| == 0 then acc
    else
      var r0 := AddAll(acc, xs[..|xs| - 1]);
      var x := xs[|xs| - 1];
      assert forall z :: z in xs <==> z in xs[..|xs| - 1] || z == x;
      if x in r0 then r0
      else
        assert (r0 + [x])[..|acc|] == r0[..|acc|];
        r0 + [x]
  }

  /** DecrementReduceKeyCounter on each key in turn. */
  function DecrementAll(env: Env, counts: seq<KeyRow<int>>, status: seq<KeyRow<ReduceType>>, view: string, keys: seq<string>)
    : (seq<KeyRow<int>>, seq<KeyRow<ReduceType>>)
  {
    if |keys| == 0 then (counts, status)
    else
      var prev := DecrementAll(env, counts, status, view, keys[..|keys| - 1]);
      Decrement(env, prev.0, prev.1, view, keys[|keys| - 1])
  }

  /** A run of decrements keeps both key tables well formed. */
  lemma {:induction false} DecrementAllKeepsOk(env: Env, counts: seq<KeyRow<int>>, status: seq<KeyRow<ReduceType>>, view: string, keys: seq<string>)
    requires KeyTableOk(env, counts) && KeyTableOk(env, status)
    ensures KeyTableOk(env, DecrementAll(env, counts, status, view, keys).0)
    ensures KeyTableOk(env, DecrementAll(env, counts, status, view, keys).1)
  {
    if |keys| > 0 {
      DecrementAllKeepsOk(env, counts, status, view, keys[..|keys| - 1]);
      var prev := DecrementAll(env, counts, status, view, keys[..|keys| - 1]);
      CounterOpsKeepOk(env, prev.0, prev.1, view, keys[|keys| - 1]);
    }
  }

  // ---- DeleteMappedResultsForView ----

  /** Index by_view, seeked at the view. */
  function ViewRange(env: Env, view: string): MappedRow -> bool
  {
    (r: MappedRow) => IndexKey(env, r.view) == IndexKey(env, view)
  }

  /** The per-row re-check: the view ignoring case. */
  function ViewHit(env: Env, view: string): MappedRow -> bool
  {
    (r: MappedRow) => SameName(env, r.view, view)
  }

  /** The rows the walk over the view's index range deletes. */
  function ViewRows(env: Env, mapped: seq<MappedRow>, view: string): seq<MappedRow>
  {
    Filter(Filter(mapped, ViewRange(env, view)), ViewHit(env, view))
  }

  /** The walk deletes exactly the rows of the view, ignoring case. */
  lemma ViewRowsAreHits(env: Env, mapped: seq<MappedRow>, view: string)
    ensures ViewRows(env, mapped, view) == Filter(mapped, ViewHit(env, view))
  {
    FilterFilter(mapped, ViewRange(env, view), ViewHit(env, view));
    FilterExt(mapped, And(ViewRange(env, view), ViewHit(env, view)), ViewHit(env, view));
  }

  /** Every row of the view, by the re-check, is in the view's index range. */
  lemma ViewRowsInRange(env: Env, mapped: seq<MappedRow>, view: string)
    ensures Filter(mapped, Not(And(ViewRange(env, view), ViewHit(env, view)))) == Filter(mapped, Not(ViewHit(env, view)))
  {
    FilterExt(mapped, Not(And(ViewRange(env, view), ViewHit(env, view))), Not(ViewHit(env, view)));
  }

  /** The reduce keys of `rows`, one per row, duplicates kept. */
  function KeysOfRows(rows: seq<MappedRow>): (r: seq<string>)
    ensures |r| == |rows|
    ensures forall i :: 0 <= i < |rows| ==> r[i] == rows[i].reduceKey
  {
    KeysOfPairs(PairsOf(rows))
  }

  // ---- RemoveReduceResults ----

  /** Index by_view_level_source_bucket_and_hashed_reduce_key, seeked at
      (view, level, source bucket, hash of the key). */
  function SourceSeek(env: Env, view: string, level: int, sourceBucket: int, key: string): ReducedRow -> bool
  {
    (r: ReducedRow) =>
      && IndexKey(env, r.view) == IndexKey(env, view)
      && r.level == level
      && r.sourceBucket == sourceBucket
      && r.hash == env.hashOf(key)
  }

  /** No index range is set: the walk goes on while the view matches
      ignoring case and the source bucket matches. */
  predicate InRun(env: Env, r: ReducedRow, view: string, sourceBucket: int)
  {
    SameName(env, r.view, view) && r.sourceBucket == sourceBucket
  }

  /** The rows whose reduce key is `key`, compared ordinally. */
  function KeyIs(key: string): ReducedRow -> bool
  {
    (r: ReducedRow) => r.reduceKey == key
  }

  /** Where the walk from row i breaks: the first row that leaves the run,
      or the end of the index. */
  function RunEnd(env: Env, order: seq<ReducedRow>, i: nat, view: string, sourceBucket: int): (m: nat)
    requires i <= |order|
    decreases |order| - i
    ensures i <= m <= |order|
    ensures forall j :: i <= j < m ==> InRun(env, order[j], view, sourceBucket)
    ensures m < |order| ==> !InRun(env, order[m], view, sourceBucket)
  {
    if i == |order| || !InRun(env, order[i], view, sourceBucket) then i
    else RunEnd(env, order, i + 1, view, sourceBucket)
  }

  /** The rows the walk from row i deletes: it breaks on a row outside the
      run and skips a row of another key. */
  function RemovalWalk(env: Env, order: seq<ReducedRow>, i: nat, view: string, sourceBucket: int, key: string): seq<ReducedRow>
    requires i <= |order|
    decreases |order| - i
  {
    if i == |order| || !InRun(env, order[i], view, sourceBucket) then []
    else (if order[i].reduceKey == key then [order[i]] else []) + RemovalWalk(env, order, i + 1, view, sourceBucket, key)
  }

  /** One row of the walk: it ends at the end of the index and at a row
      outside the run, and otherwise deletes the row when its key matches. */
  lemma RemovalWalkStep(env: Env, order: seq<ReducedRow>, i: nat, view: string, sourceBucket: int, key: string)
    requires i <= |order|
    ensures i == |order| ==> RemovalWalk(env, order, i, view, sourceBucket, key) == []
    ensures i < |order| && !InRun(env, order[i], view, sourceBucket) ==> RemovalWalk(env, order, i, view, sourceBucket, key) == []
    ensures i < |order| && InRun(env, order[i], view, sourceBucket) ==>
      RemovalWalk(env, order, i, view, sourceBucket, key)
        == (if order[i].reduceKey == key then [order[i]] else []) + RemovalWalk(env, order, i + 1, view, sourceBucket, key)
  {
  }

  /** The walk deletes exactly the rows of `key` between the seek position
      and the first row that leaves the run. */
  lemma {:induction false} RemovalWalkIsRun(env: Env, order: seq<ReducedRow>, i: nat, view: string, sourceBucket: int, key: string)
    requires i <= |order|
    decreases |order| - i
    ensures RemovalWalk(env, order, i, view, sourceBucket, key)
      == Filter(order[i..RunEnd(env, order, i, view, sourceBucket)], KeyIs(key))
  {
    if i < |order| && InRun(env, order[i], view, sourceBucket) {
      var m := RunEnd(env, order, i, view, sourceBucket);
      RemovalWalkIsRun(env, order, i + 1, view, sourceBucket, key);
      assert order[i..m] == [order[i]] + order[i + 1..m];
      FilterCons(order[i], order[i + 1..m], KeyIs(key));
    } else {
      assert order[i..i] == [];
    }
  }

  /** RemoveReduceResults over the reduced rows in the order of the index:
      nothing when the seek finds no row, else the walk from where it lands. */
  function ReducedRemovals(env: Env, order: seq<ReducedRow>, view: string, level: int, sourceBucket: int, key: string): seq<ReducedRow>
  {
    match FirstWhere(order, SourceSeek(env, view, level, sourceBucket, key), 0)
    case None => []
    case Some(i) => RemovalWalk(env, order, i, view, sourceBucket, key)
  }

  /** Every removed reduced row has the key, compared ordinally, the view,
      ignoring case, and the source bucket; the level is not checked. */
  lemma ReducedRemovalsSound(env: Env, order: seq<ReducedRow>, view: string, level: int, sourceBucket: int, key: string, x: ReducedRow)
    requires x in ReducedRemovals(env, order, view, level, sourceBucket, key)
    ensures x in order && x.reduceKey == key && SameName(env, x.view, view) && x.sourceBucket == sourceBucket
  {
    var i := FirstWhere(order, SourceSeek(env, view, level, sourceBucket, key), 0).value;
    RemovalWalkIsRun(env, order, i, view, sourceBucket, key);
    var m := RunEnd(env, order, i, view, sourceBucket);
    var k :| i <= k < m && order[k] == x;
  }
}
