/** The per-(view, reduce key) accounting tables ReduceKeysCounts and
    ReduceKeysStatus. Both are reached through ExecuteOnReduceKey: seek the
    index by_view_and_hashed_reduce_key at (view, hash, key); when nothing
    is there, insert a row and act on it; otherwise act on the first row of
    the range whose key is ordinally equal, or on none. */
module Counters {
  import opened Common
  import opened Schema

  /** Whether row r lies in the index range of (view, key). */
  predicate InKeyRange<V>(env: Env, r: KeyRow<V>, view: string, key: string)
  {
    IndexKey(env, r.view) == IndexKey(env, view) && r.hash == env.hashOf(key)
    && IndexKey(env, r.reduceKey) == IndexKey(env, key)
  }

  /** Whether row r is the one ExecuteOnReduceKey acts on. */
  predicate IsKeyRow<V>(env: Env, r: KeyRow<V>, view: string, key: string)
  {
    InKeyRange(env, r, view, key) && r.reduceKey == key
  }

  /** The outcome of ExecuteOnReduceKey's seek: the range is empty (a row is
      inserted), the action runs on row `index`, or no row of the range has
      the key (the action does not run). */
  datatype Location = Absent | At(index: nat) | Unmatched

  function FirstKeyRow<V>(env: Env, table: seq<KeyRow<V>>, view: string, key: string, i: nat): (r: Option<nat>)
    requires i <= |table|
    decreases |table| - i
    ensures r.Some? ==> i <= r.value < |table| && IsKeyRow(env, table[r.value], view, key)
    ensures r.Some? ==> forall j :: i <= j < r.value ==> !IsKeyRow(env, table[j], view, key)
    ensures r.None? ==> forall j :: i <= j < |table| ==> !IsKeyRow(env, table[j], view, key)
  {
    if i == |table| then None
    else if IsKeyRow(env, table[i], view, key) then Some(i)
    else FirstKeyRow(env, table, view, key, i + 1)
  }

  /** Which row, if any, ExecuteOnReduceKey acts on. */
  function Locate<V>(env: Env, table: seq<KeyRow<V>>, view: string, key: string): (loc: Location)
    ensures loc.Absent? <==> forall j :: 0 <= j < |table| ==> !InKeyRange(env, table[j], view, key)
    ensures loc.At? <==> exists j :: 0 <= j < |table| && IsKeyRow(env, table[j], view, key)
    ensures loc.At? ==> loc.index < |table| && IsKeyRow(env, table[loc.index], view, key)
    ensures loc.At? ==> forall j :: 0 <= j < loc.index ==> !IsKeyRow(env, table[j], view, key)
  {
    if forall j :: 0 <= j < |table| ==> !InKeyRange(env, table[j], view, key) then Absent
    else match FirstKeyRow(env, table, view, key, 0)
      case Some(i) => At(i)
      case None => Unmatched
  }

  /** The row ExecuteOnReduceKey inserts; the value column takes its default. */
  function NewKeyRow<V>(env: Env, view: string, key: string, value: V): KeyRow<V>
  {
    KeyRow(view, key, env.hashOf(key), value)
  }

  function RemoveAt<T>(s: seq<T>, i: nat): (r: seq<T>)
    requires i < |s|
    ensures |r| == |s| - 1
    ensures forall j :: 0 <= j < i ==> r[j] == s[j]
    ensures forall j :: i <= j < |r| ==> r[j] == s[j + 1]
  {
    s[..i] + s[i + 1..]
  }

  /** Two rows that share one index key. */
  predicate SameRange<V>(env: Env, a: KeyRow<V>, b: KeyRow<V>)
  {
    IndexKey(env, a.view) == IndexKey(env, b.view) && a.hash == b.hash
    && IndexKey(env, a.reduceKey) == IndexKey(env, b.reduceKey)
  }

  /** What every counter or status table satisfies: each row carries its
      key's hash, and no two rows share an index key (a row is inserted only
      when the seek finds nothing). */
  ghost predicate KeyTableOk<V>(env: Env, table: seq<KeyRow<V>>)
  {
    && (forall r :: r in table ==> r.hash == env.hashOf(r.reduceKey))
    && (forall i, j :: 0 <= i < j < |table| ==> !SameRange(env, table[i], table[j]))
  }

  // ---- ReduceKeysCounts ----

  /** The count GetNumberOfMappedItemsPerReduceKey reports: the row's value,
      or 0 when the action does not run on an existing row. */
  function CounterValue(env: Env, counts: seq<KeyRow<int>>, view: string, key: string): int
  {
    match Locate(env, counts, view, key)
    case At(i) => counts[i].value
    case _ => 0
  }

  /** IncrementReduceKeyCounter: an escrow update of +1 on the located row,
      on a fresh row holding 0 when the range is empty. */
  function Increment(env: Env, counts: seq<KeyRow<int>>, view: string, key: string): seq<KeyRow<int>>
  {
    match Locate(env, counts, view, key)
    case Absent => counts + [NewKeyRow(env, view, key, 0 + 1)]
    case At(i) => counts[i := counts[i].(value := counts[i].value + 1)]
    case Unmatched => counts
  }

  /** GetNumberOfMappedItemsPerReduceKey: the table afterwards (a row holding
      0 is inserted when the range is empty) and the count read. */
  function ReadCount(env: Env, counts: seq<KeyRow<int>>, view: string, key: string): (seq<KeyRow<int>>, int)
  {
    match Locate(env, counts, view, key)
    case Absent => (counts + [NewKeyRow(env, view, key, 0)], 0)
    case At(i) => (counts, counts[i].value)
    case Unmatched => (counts, 0)
  }

  // ---- ReduceKeysStatus ----

  /** The status rows after ExecuteOnReduceKey with a delete action: an
      inserted row is deleted at once, so only a located row goes. */
  function DeleteStatus(env: Env, status: seq<KeyRow<ReduceType>>, view: string, key: string): seq<KeyRow<ReduceType>>
  {
    match Locate(env, status, view, key)
    case At(i) => RemoveAt(status, i)
    case _ => status
  }

  /** DecrementReduceKeyCounter: an escrow update of -1; when the old value
      was 1 the counter row is deleted and so is the key's status row. On an
      empty range the inserted row holds 0 - 1. */
  function Decrement(env: Env, counts: seq<KeyRow<int>>, status: seq<KeyRow<ReduceType>>, view: string, key: string)
    : (seq<KeyRow<int>>, seq<KeyRow<ReduceType>>)
  {
    match Locate(env, counts, view, key)
    case Absent => (counts + [NewKeyRow(env, view, key, 0 - 1)], status)
    case At(i) =>
      if counts[i].value == 1 then (RemoveAt(counts, i), DeleteStatus(env, status, view, key))
      else (counts[i := counts[i].(value := counts[i].value - 1)], status)
    case Unmatched => (counts, status)
  }

  /** GetLastPerformedReduceType: the table afterwards and the type read
      (Unset when the action does not run on an existing row). */
  function LastReduceType(env: Env, status: seq<KeyRow<ReduceType>>, view: string, key: string)
    : (seq<KeyRow<ReduceType>>, ReduceType)
  {
    match Locate(env, status, view, key)
    case Absent => (status + [NewKeyRow(env, view, key, Unset)], Unset)
    case At(i) => (status, status[i].value)
    case Unmatched => (status, Unset)
  }

  /** UpdatePerformedReduceType. */
  function SetReduceType(env: Env, status: seq<KeyRow<ReduceType>>, view: string, key: string, t: ReduceType)
    : seq<KeyRow<ReduceType>>
  {
    match Locate(env, status, view, key)
    case Absent => status + [NewKeyRow(env, view, key, t)]
    case At(i) => status[i := status[i].(value := t)]
    case Unmatched => status
  }

  // ---- properties ----

  /** After a row for (view, key) is appended to a range-free table, it is
      the row the seek finds. */
  lemma LocateAppended<V>(env: Env, table: seq<KeyRow<V>>, view: string, key: string, v: V)
    requires Locate(env, table, view, key).Absent?
    ensures Locate(env, table + [NewKeyRow(env, view, key, v)], view, key) == At(|table|)
  {
    var t := table + [NewKeyRow(env, view, key, v)];
    assert IsKeyRow(env, t[|table|], view, key);
  }

  /** The one row of a well-formed table that lies in a range. */
  lemma OnlyRowInRange<V>(env: Env, table: seq<KeyRow<V>>, view: string, key: string, i: nat, j: nat)
    requires KeyTableOk(env, table)
    requires i < |table| && j < |table|
    requires InKeyRange(env, table[i], view, key) && InKeyRange(env, table[j], view, key)
    ensures i == j
  {
    if i < j {
      assert SameRange(env, table[i], table[j]);
    } else if j < i {
      assert SameRange(env, table[j], table[i]);
    }
  }

  /** Removing the located row of a well-formed table leaves its range empty. */
  lemma LocateAfterRemove<V>(env: Env, table: seq<KeyRow<V>>, view: string, key: string)
    requires KeyTableOk(env, table)
    requires Locate(env, table, view, key).At?
    ensures Locate(env, RemoveAt(table, Locate(env, table, view, key).index), view, key).Absent?
  {
    var i := Locate(env, table, view, key).index;
    var t := RemoveAt(table, i);
    forall j | 0 <= j < |t| ensures !InKeyRange(env, t[j], view, key) {
      var k := if j < i then j else j + 1;
      assert t[j] == table[k];
      if InKeyRange(env, t[j], view, key) {
        OnlyRowInRange(env, table, view, key, i, k);
      }
    }
  }

  /** A row for (view, key) can be added to a table whose range is empty. */
  lemma AppendKeepsOk<V>(env: Env, table: seq<KeyRow<V>>, view: string, key: string, v: V)
    requires KeyTableOk(env, table)
    requires Locate(env, table, view, key).Absent?
    ensures KeyTableOk(env, table + [NewKeyRow(env, view, key, v)])
  {
    var t := table + [NewKeyRow(env, view, key, v)];
    forall i, j | 0 <= i < j < |t| ensures !SameRange(env, t[i], t[j]) {
      if j == |table| {
        assert !InKeyRange(env, table[i], view, key);
      }
    }
  }

  lemma RemoveKeepsOk<V>(env: Env, table: seq<KeyRow<V>>, i: nat)
    requires KeyTableOk(env, table) && i < |table|
    ensures KeyTableOk(env, RemoveAt(table, i))
  {
    var t := RemoveAt(table, i);
    forall r | r in t ensures r.hash == env.hashOf(r.reduceKey) {
      var j :| 0 <= j < |t| && t[j] == r;
      assert r == table[if j < i then j else j + 1];
    }
    forall a, b | 0 <= a < b < |t| ensures !SameRange(env, t[a], t[b]) {
      var a', b' := if a < i then a else a + 1, if b < i then b else b + 1;
      assert t[a] == table[a'] && t[b] == table[b'];
    }
  }

  lemma UpdateKeepsOk<V>(env: Env, table: seq<KeyRow<V>>, i: nat, v: V)
    requires KeyTableOk(env, table) && i < |table|
    ensures KeyTableOk(env, table[i := table[i].(value := v)])
  {
    var t := table[i := table[i].(value := v)];
    forall a, b | 0 <= a < b < |t| ensures !SameRange(env, t[a], t[b]) {
      assert SameRange(env, t[a], t[b]) == SameRange(env, table[a], table[b]);
    }
  }

  /** Every operation on the counter table keeps it well formed. */
  lemma CounterOpsKeepOk(env: Env, counts: seq<KeyRow<int>>, status: seq<KeyRow<ReduceType>>, view: string, key: string)
    requires KeyTableOk(env, counts) && KeyTableOk(env, status)
    ensures KeyTableOk(env, Increment(env, counts, view, key))
    ensures KeyTableOk(env, ReadCount(env, counts, view, key).0)
    ensures KeyTableOk(env, Decrement(env, counts, status, view, key).0)
    ensures KeyTableOk(env, Decrement(env, counts, status, view, key).1)
  {
    IncrementReadKeepOk(env, counts, view, key);
    DecrementKeepsOk(env, counts, status, view, key);
  }

  /** Increment and the read of a count keep the counter table well formed. */
  lemma IncrementReadKeepOk(env: Env, counts: seq<KeyRow<int>>, view: string, key: string)
    requires KeyTableOk(env, counts)
    ensures KeyTableOk(env, Increment(env, counts, view, key))
    ensures KeyTableOk(env, ReadCount(env, counts, view, key).0)
  {
    match Locate(env, counts, view, key)
    case Absent =>
      AppendKeepsOk(env, counts, view, key, 0 + 1);
      AppendKeepsOk(env, counts, view, key, 0);
    case At(i) =>
      UpdateKeepsOk(env, counts, i, counts[i].value + 1);
    case Unmatched =>
  }

  /** Decrement keeps both key tables well formed. */
  lemma DecrementKeepsOk(env: Env, counts: seq<KeyRow<int>>, status: seq<KeyRow<ReduceType>>, view: string, key: string)
    requires KeyTableOk(env, counts) && KeyTableOk(env, status)
    ensures KeyTableOk(env, Decrement(env, counts, status, view, key).0)
    ensures KeyTableOk(env, Decrement(env, counts, status, view, key).1)
  {
    match Locate(env, counts, view, key)
    case Absent =>
      AppendKeepsOk(env, counts, view, key, 0 - 1);
    case At(i) =>
      UpdateKeepsOk(env, counts, i, counts[i].value - 1);
      RemoveKeepsOk(env, counts, i);
      if Locate(env, status, view, key).At? {
        RemoveKeepsOk(env, status, Locate(env, status, view, key).index);
      }
    case Unmatched =>
  }

  /** Every operation on the status table keeps it well formed. */
  lemma StatusOpsKeepOk(env: Env, status: seq<KeyRow<ReduceType>>, view: string, key: string, t: ReduceType)
    requires KeyTableOk(env, status)
    ensures KeyTableOk(env, LastReduceType(env, status, view, key).0)
    ensures KeyTableOk(env, SetReduceType(env, status, view, key, t))
  {
    match Locate(env, status, view, key)
    case Absent =>
      AppendKeepsOk(env, status, view, key, Unset);
      AppendKeepsOk(env, status, view, key, t);
    case At(j) =>
      UpdateKeepsOk(env, status, j, t);
    case Unmatched =>
  }

  /** A key whose range holds no row of another key: the seek either finds
      nothing or finds the key's own row. */
  predicate Resolvable<V>(env: Env, table: seq<KeyRow<V>>, view: string, key: string)
  {
    !Locate(env, table, view, key).Unmatched?
  }

  /** Incrementing adds one to the key's count. */
  lemma IncrementAddsOne(env: Env, counts: seq<KeyRow<int>>, view: string, key: string)
    requires Resolvable(env, counts, view, key)
    ensures CounterValue(env, Increment(env, counts, view, key), view, key) == CounterValue(env, counts, view, key) + 1
  {
    match Locate(env, counts, view, key)
    case Absent =>
      LocateAppended(env, counts, view, key, 0 + 1);
    case At(i) =>
      var t := counts[i := counts[i].(value := counts[i].value + 1)];
      assert IsKeyRow(env, t[i], view, key);
      assert forall j :: 0 <= j < i ==> t[j] == counts[j];
  }

  /** Decrementing subtracts one from the key's count, and a count that
      reaches zero leaves no counter row and no status row for the key. */
  lemma DecrementSubtractsOne(env: Env, counts: seq<KeyRow<int>>, status: seq<KeyRow<ReduceType>>, view: string, key: string)
    requires KeyTableOk(env, counts) && KeyTableOk(env, status)
    requires Resolvable(env, counts, view, key)
    ensures var (c, s) := Decrement(env, counts, status, view, key);
      && CounterValue(env, c, view, key) == CounterValue(env, counts, view, key) - 1
      && (CounterValue(env, counts, view, key) == 1 ==>
            Locate(env, c, view, key).Absent? && !Locate(env, s, view, key).At?)
  {
    match Locate(env, counts, view, key)
    case Absent =>
      LocateAppended(env, counts, view, key, 0 - 1);
    case At(i) =>
      if counts[i].value == 1 {
        LocateAfterRemove(env, counts, view, key);
        if Locate(env, status, view, key).At? {
          LocateAfterRemove(env, status, view, key);
        }
      } else {
        var t := counts[i := counts[i].(value := counts[i].value - 1)];
        assert IsKeyRow(env, t[i], view, key);
        assert forall j :: 0 <= j < i ==> t[j] == counts[j];
      }
  }

  /** An increment followed by a decrement restores the key's count. */
  lemma IncrementThenDecrement(env: Env, counts: seq<KeyRow<int>>, status: seq<KeyRow<ReduceType>>, view: string, key: string)
    requires KeyTableOk(env, counts) && KeyTableOk(env, status)
    requires Resolvable(env, counts, view, key)
    ensures CounterValue(env, Decrement(env, Increment(env, counts, view, key), status, view, key).0, view, key)
            == CounterValue(env, counts, view, key)
  {
    var c := Increment(env, counts, view, key);
    CounterOpsKeepOk(env, counts, status, view, key);
    IncrementAddsOne(env, counts, view, key);
    assert Resolvable(env, c, view, key);
    DecrementSubtractsOne(env, c, status, view, key);
  }

  /** Reading a count may insert a row, but it changes no key's count. */
  lemma ReadCountChangesNoCount(env: Env, counts: seq<KeyRow<int>>, view: string, key: string, view': string, key': string)
    ensures CounterValue(env, ReadCount(env, counts, view, key).0, view', key') == CounterValue(env, counts, view', key')
    ensures ReadCount(env, counts, view, key).1 == CounterValue(env, counts, view, key)
  {
    if Locate(env, counts, view, key).Absent? {
      var t := counts + [NewKeyRow(env, view, key, 0)];
      match Locate(env, counts, view', key')
      case At(i) =>
        assert IsKeyRow(env, t[i], view', key');
        assert forall j :: 0 <= j < i ==> t[j] == counts[j];
      case _ =>
    }
  }

  /** The reduce type written is the one read back. */
  lemma SetThenGetReduceType(env: Env, status: seq<KeyRow<ReduceType>>, view: string, key: string, t: ReduceType)
    requires Resolvable(env, status, view, key)
    ensures LastReduceType(env, SetReduceType(env, status, view, key, t), view, key).1 == t
  {
    match Locate(env, status, view, key)
    case Absent =>
      LocateAppended(env, status, view, key, t);
    case At(i) =>
      var s := status[i := status[i].(value := t)];
      assert IsKeyRow(env, s[i], view, key);
      assert forall j :: 0 <= j < i ==> s[j] == status[j];
  }
}
