/** Generic helpers shared by the storage model: an Option type and the
    order-preserving filters that stand for index range scans. */
module Common {

  datatype Option<+T> = None | Some(value: T)

  /** The rows of `s` that satisfy `p`, in their original order. */
  function Filter<T>(s: seq<T>, p: T -> bool): (r: seq<T>)
    ensures |r| <= |s|
    ensures forall x :: x in r ==> x in s && p(x)
    ensures forall x :: x in s && p(x) ==> x in r
  {
    if |s| == 0 then [] else Filter(s[..|s| - 1], p) + (if p(s[|s| - 1]) then [s[|s| - 1]] else [])
  }

  /** `f` applied to the rows of `s` that satisfy `p`, in their original order. */
  function FilterMap<T, U>(s: seq<T>, p: T -> bool, f: T -> U): (r: seq<U>)
    ensures |r| <= |s|
    ensures forall x :: x in s && p(x) ==> f(x) in r
  {
    if |s| == 0 then []
    else
      var r0 := FilterMap(s[..|s| - 1], p, f);
      var x := s[|s| - 1];
      assert forall z :: z in s ==> z in s[..|s| - 1] || z == x;
      r0 + (if p(x) then [f(x)] else [])
  }

  /** Every element of a FilterMap comes from a row that passes. */
  lemma {:induction false} FilterMapSound<T, U>(s: seq<T>, p: T -> bool, f: T -> U, y: U)
    requires y in FilterMap(s, p, f)
    ensures exists x :: x in s && p(x) && y == f(x)
  {
    var s0, x := s[..|s| - 1], s[|s| - 1];
    if y in FilterMap(s0, p, f) {
      FilterMapSound(s0, p, f, y);
      var z :| z in s0 && p(z) && y == f(z);
      assert z in s;
    } else {
      assert p(x) && y == f(x);
    }
  }

  /** The conjunction of two row predicates. */
  function And<T>(p: T -> bool, q: T -> bool): T -> bool
  {
    x => p(x) && q(x)
  }

  /** The predicate "differs from `x`". */
  function Other<T(==)>(x: T): T -> bool
  {
    y => y != x
  }

  /** The negation of a row predicate. */
  function Not<T>(p: T -> bool): T -> bool
  {
    x => !p(x)
  }

  /** The predicate "is not one of `xs`". */
  function NotIn<T(==)>(xs: seq<T>): T -> bool
  {
    y => y !in xs
  }

  /** The first index from `i` on whose element satisfies `p`: where a
      cursor lands after an equality seek. */
  function FirstWhere<T>(s: seq<T>, p: T -> bool, i: nat): (r: Option<nat>)
    requires i <= |s|
    decreases |s| - i
    ensures r.Some? ==> i <= r.value < |s| && p(s[r.value])
    ensures r.Some? ==> forall j :: i <= j < r.value ==> !p(s[j])
    ensures r.None? ==> forall j :: i <= j < |s| ==> !p(s[j])
  {
    if i == |s| then None
    else if p(s[i]) then Some(i)
    else FirstWhere(s, p, i + 1)
  }

  /** `s` without the rows equal to `x`. */
  function Remove<T(==)>(s: seq<T>, x: T): (r: seq<T>)
    ensures x !in r
    ensures forall y :: y in r ==> y in s && y != x
    ensures forall y :: y in s && y != x ==> y in r
  {
    Filter(s, Other(x))
  }

  /** The keys of `s` are strictly increasing. */
  ghost predicate Ascending<T>(s: seq<T>, key: T -> int)
  {
    forall i, j :: 0 <= i < j < |s| ==> key(s[i]) < key(s[j])
  }

  /** The elements of `s` are pairwise distinct. */
  ghost predicate NoDuplicates<T>(s: seq<T>)
  {
    forall i, j :: 0 <= i < j < |s| ==> s[i] != s[j]
  }

  /** `a` is a prefix of `b`. */
  ghost predicate IsPrefix<T>(a: seq<T>, b: seq<T>)
  {
    |a| <= |b| && a == b[..|a|]
  }

  lemma FilterSnoc<T>(s: seq<T>, x: T, p: T -> bool)
    ensures Filter(s + [x], p) == Filter(s, p) + (if p(x) then [x] else [])
  {
    assert (s + [x])[..|s|] == s;
  }

  lemma FilterMapSnoc<T, U>(s: seq<T>, x: T, p: T -> bool, f: T -> U)
    ensures FilterMap(s + [x], p, f) == FilterMap(s, p, f) + (if p(x) then [f(x)] else [])
  {
    assert (s + [x])[..|s|] == s;
  }

  /** Two predicates that agree on the rows of `s` select the same rows. */
  lemma {:induction false} FilterExt<T>(s: seq<T>, p: T -> bool, q: T -> bool)
    requires forall x :: x in s ==> p(x) == q(x)
    ensures Filter(s, p) == Filter(s, q)
  {
    if |s| > 0 {
      var s0 := s[..|s| - 1];
      assert forall x :: x in s0 ==> x in s;
      FilterExt(s0, p, q);
    }
  }

  lemma {:induction false} FilterMapExt<T, U>(s: seq<T>, p: T -> bool, q: T -> bool, f: T -> U)
    requires forall x :: x in s ==> p(x) == q(x)
    ensures FilterMap(s, p, f) == FilterMap(s, q, f)
  {
    if |s| > 0 {
      var s0 := s[..|s| - 1];
      assert forall x :: x in s0 ==> x in s;
      FilterMapExt(s0, p, q, f);
    }
  }

  /** Filtering twice is filtering once by the conjunction. */
  lemma {:induction false} FilterFilter<T>(s: seq<T>, p: T -> bool, q: T -> bool)
    ensures Filter(Filter(s, p), q) == Filter(s, And(p, q))
  {
    if |s| > 0 {
      var s0, x := s[..|s| - 1], s[|s| - 1];
      FilterFilter(s0, p, q);
      var a := And(p, q);
      assert a(x) == (p(x) && q(x));
      if p(x) {
        calc {
          Filter(Filter(s, p), q);
          Filter(Filter(s0, p) + [x], q);
          { FilterSnoc(Filter(s0, p), x, q); }
          Filter(Filter(s0, p), q) + (if q(x) then [x] else []);
          Filter(s0, a) + (if a(x) then [x] else []);
          Filter(s, a);
        }
      } else {
        calc {
          Filter(Filter(s, p), q);
          { assert Filter(s, p) == Filter(s0, p); }
          Filter(Filter(s0, p), q);
          Filter(s0, a);
          Filter(s, a);
        }
      }
    }
  }

  /** Mapping a filtered sequence is filtering by the conjunction. */
  lemma {:induction false} FilterMapOfFilter<T, U>(s: seq<T>, p: T -> bool, q: T -> bool, f: T -> U)
    ensures FilterMap(Filter(s, p), q, f) == FilterMap(s, And(p, q), f)
  {
    if |s| > 0 {
      var s0, x := s[..|s| - 1], s[|s| - 1];
      FilterMapOfFilter(s0, p, q, f);
      var a := And(p, q);
      assert a(x) == (p(x) && q(x));
      if p(x) {
        calc {
          FilterMap(Filter(s, p), q, f);
          FilterMap(Filter(s0, p) + [x], q, f);
          { FilterMapSnoc(Filter(s0, p), x, q, f); }
          FilterMap(Filter(s0, p), q, f) + (if q(x) then [f(x)] else []);
          FilterMap(s0, a, f) + (if a(x) then [f(x)] else []);
          FilterMap(s, a, f);
        }
      } else {
        calc {
          FilterMap(Filter(s, p), q, f);
          { assert Filter(s, p) == Filter(s0, p); }
          FilterMap(Filter(s0, p), q, f);
          FilterMap(s0, a, f);
          FilterMap(s, a, f);
        }
      }
    }
  }

  /** A filter keeps the rows in their original relative order. */
  lemma {:induction false} FilterAscending<T>(s: seq<T>, p: T -> bool, key: T -> int)
    requires Ascending(s, key)
    ensures Ascending(Filter(s, p), key)
  {
    if |s| > 0 {
      var s0, x := s[..|s| - 1], s[|s| - 1];
      assert Ascending(s0, key);
      FilterAscending(s0, p, key);
      var f0 := Filter(s0, p);
      forall y | y in f0 ensures key(y) < key(x) {
        var i :| 0 <= i < |s0| && s0[i] == y;
      }
    }
  }

  lemma AscendingSnoc<T>(s: seq<T>, x: T, key: T -> int)
    requires Ascending(s, key)
    requires forall y :: y in s ==> key(y) < key(x)
    ensures Ascending(s + [x], key)
  {
    var t := s + [x];
    forall i, j | 0 <= i < j < |t| ensures key(t[i]) < key(t[j]) {
      if j == |s| {
        assert t[i] in s;
      }
    }
  }

  lemma AscendingNoDuplicates<T>(s: seq<T>, key: T -> int)
    requires Ascending(s, key)
    ensures NoDuplicates(s)
  {
  }

  /** Removing one row from a filtered table is filtering by one more condition. */
  lemma RemoveFromFilter<T>(s: seq<T>, p: T -> bool, x: T, q: T -> bool)
    requires forall y :: y in s ==> q(y) == (p(y) && y != x)
    ensures Remove(Filter(s, p), x) == Filter(s, q)
  {
    FilterFilter(s, p, Other(x));
    FilterExt(s, And(p, Other(x)), q);
  }

  /** Filtering a prefix gives a prefix of the filtered whole. */
  lemma {:induction false} FilterPrefix<T>(s: seq<T>, p: T -> bool, m: nat)
    requires m <= |s|
    ensures IsPrefix(Filter(s[..m], p), Filter(s, p))
  {
    if m < |s| {
      var s0 := s[..|s| - 1];
      assert s0[..m] == s[..m];
      FilterPrefix(s0, p, m);
      var a, b := Filter(s[..m], p), Filter(s0, p);
      assert Filter(s, p) == b + (if p(s[|s| - 1]) then [s[|s| - 1]] else []);
      assert (b + (if p(s[|s| - 1]) then [s[|s| - 1]] else []))[..|a|] == b[..|a|];
    } else {
      assert s[..m] == s;
    }
  }

  /** One more row of a scan over `s`: the filtered prefix grows by that row
      when it passes, stays a prefix of the filtered whole, and is the whole
      once the last row is reached. */
  lemma FilterStep<T>(s: seq<T>, p: T -> bool, j: nat)
    requires j < |s|
    ensures Filter(s[..j + 1], p) == Filter(s[..j], p) + (if p(s[j]) then [s[j]] else [])
    ensures IsPrefix(Filter(s[..j + 1], p), Filter(s, p))
    ensures j + 1 == |s| ==> Filter(s[..j + 1], p) == Filter(s, p)
  {
    FilterSnocAt(s, p, j);
    FilterPrefix(s, p, j + 1);
    if j + 1 == |s| {
      FilterWhole(s, p, j + 1);
    }
  }

  lemma FilterSnocAt<T>(s: seq<T>, p: T -> bool, j: nat)
    requires j < |s|
    ensures Filter(s[..j + 1], p) == Filter(s[..j], p) + (if p(s[j]) then [s[j]] else [])
  {
    assert s[..j + 1] == s[..j] + [s[j]];
    FilterSnoc(s[..j], s[j], p);
  }

  lemma FilterWhole<T>(s: seq<T>, p: T -> bool, m: nat)
    requires m == |s|
    ensures Filter(s[..m], p) == Filter(s, p)
  {
    assert s[..m] == s;
  }

  /** Removing one more row from a table filtered by `NotIn(done)`. */
  lemma RemoveOneMore<T>(s: seq<T>, done: seq<T>, x: T)
    ensures Remove(Filter(s, NotIn(done)), x) == Filter(s, NotIn(done + [x]))
  {
    RemoveFromFilter(s, NotIn(done), x, NotIn(done + [x]));
  }

  /** Filtering a sequence that starts with `x`. */
  lemma {:induction false} FilterCons<T>(x: T, s: seq<T>, p: T -> bool)
    ensures Filter([x] + s, p) == (if p(x) then [x] else []) + Filter(s, p)
  {
    var t := [x] + s;
    if |s| > 0 {
      var s0 := s[..|s| - 1];
      var y := s[|s| - 1];
      var head := if p(x) then [x] else [];
      var last := if p(y) then [y] else [];
      var mid := Filter(s0, p);
      assert (head + mid) + last == head + (mid + last);
      assert t[..|t| - 1] == [x] + s0 && t[|t| - 1] == y;
      FilterCons(x, s0, p);
      assert Filter(t, p) == (head + mid) + last;
      assert Filter(s, p) == mid + last;
    } else {
      assert t[..0] == [] && t[0] == x;
    }
  }

  /** Mapping the passing rows of a sequence that starts with `x`. */
  lemma {:induction false} FilterMapCons<T, U>(x: T, s: seq<T>, p: T -> bool, f: T -> U)
    ensures FilterMap([x] + s, p, f) == (if p(x) then [f(x)] else []) + FilterMap(s, p, f)
  {
    if |s| > 0 {
      var s0 := s[..|s| - 1];
      assert ([x] + s)[..|s|] == [x] + s0;
      FilterMapCons(x, s0, p, f);
    } else {
      assert ([x] + s)[..0] == [];
    }
  }

  /** Rows before `i` that fail `p` contribute nothing. */
  lemma {:induction false} FilterMapSkip<T, U>(s: seq<T>, i: nat, p: T -> bool, f: T -> U)
    requires i <= |s|
    requires forall j :: 0 <= j < i ==> !p(s[j])
    ensures FilterMap(s, p, f) == FilterMap(s[i..], p, f)
  {
    if i > 0 {
      FilterMapSkip(s, i - 1, p, f);
      assert s[i - 1..] == [s[i - 1]] + s[i..];
      FilterMapCons(s[i - 1], s[i..], p, f);
    }
  }

  /** A filter every row passes keeps the whole sequence. */
  lemma FilterAll<T>(s: seq<T>, p: T -> bool)
    requires forall x :: x in s ==> p(x)
    ensures Filter(s, p) == s
  {
    FilterAllAt(s, p);
  }

  lemma {:induction false} FilterAllAt<T>(s: seq<T>, p: T -> bool)
    requires forall i :: 0 <= i < |s| ==> p(s[i])
    ensures Filter(s, p) == s
  {
    if |s| > 0 {
      var s0 := s[..|s| - 1];
      assert forall i :: 0 <= i < |s0| ==> s0[i] == s[i];
      FilterAllAt(s0, p);
      FilterLast(s, p);
      assert s == s0 + [s[|s| - 1]];
    }
  }

  lemma FilterLast<T>(s: seq<T>, p: T -> bool)
    requires |s| > 0
    ensures Filter(s, p) == Filter(s[..|s| - 1], p) + (if p(s[|s| - 1]) then [s[|s| - 1]] else [])
  {
  }

  /** Appending an element that is already present breaks NoDuplicates;
      appending a new one to a duplicate-free sequence keeps it. */
  lemma SnocDuplicate<T>(s: seq<T>, x: T)
    ensures NoDuplicates(s + [x]) <==> NoDuplicates(s) && x !in s
  {
    var t := s + [x];
    if x in s {
      var i :| 0 <= i < |s| && s[i] == x;
      assert t[i] == t[|s|];
    }
    if !NoDuplicates(s) {
      var i, j :| 0 <= i < j < |s| && s[i] == s[j];
      assert t[i] == t[j];
    }
  }

  /** A non-empty sequence is its front and its last element; without
      duplicates, the front has none and does not hold the last. */
  lemma FrontAndLast<T>(s: seq<T>)
    requires |s| > 0
    ensures forall k :: k in s <==> k in s[..|s| - 1] || k == s[|s| - 1]
    ensures NoDuplicates(s) ==> NoDuplicates(s[..|s| - 1]) && s[|s| - 1] !in s[..|s| - 1]
  {
    var front := s[..|s| - 1];
    assert forall i :: 0 <= i < |front| ==> front[i] == s[i];
    if NoDuplicates(s) {
      forall i | 0 <= i < |front|
        ensures front[i] != s[|s| - 1]
      {
        assert front[i] == s[i];
      }
    }
  }

  /** One more row of a scan that maps the passing rows of `s`. */
  lemma FilterMapStep<T, U>(s: seq<T>, p: T -> bool, f: T -> U, j: nat)
    requires j < |s|
    ensures FilterMap(s[..j + 1], p, f) == FilterMap(s[..j], p, f) + (if p(s[j]) then [f(s[j])] else [])
  {
    assert s[..j + 1] == s[..j] + [s[j]];
    FilterMapSnoc(s[..j], s[j], p, f);
  }
}
