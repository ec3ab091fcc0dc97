/**
 * The five helpers that src/array.extend.ts adds to `Array.prototype`.
 *
 * A JavaScript array is resizable and is updated in place, so it is a class
 * whose one field is the sequence of its elements. `remove`, `removeAll` and
 * `move` change that field through `splice`, as the source does; `flatMap`
 * and `distinct` build new arrays and are functions on the elements.
 * Element equality is Dafny equality, which stands for `===`.
 */
module ArrayExtend {
  import opened Wrappers

  // ---------------------------------------------------------------------------
  // Array.prototype.indexOf and Array.prototype.splice (built-ins the helpers call)
  // ---------------------------------------------------------------------------

  /** `s.indexOf(x)`: the index of the first element equal to `x`, or -1. */
  function FirstIndex<T(==)>(s: seq<T>, x: T): (i: int)
    ensures -1 <= i < |s|
    ensures i >= 0 ==> s[i] == x && x !in s[..i]
    ensures i == -1 <==> x !in s
    decreases |s|
  {
    if s == [] then -1
    else if s[0] == x then 0
    else
      var j := FirstIndex(s[1..], x);
      assert s == [s[0]] + s[1..];
      if j == -1 then -1
      else
        assert s[..j + 1] == [s[0]] + s[1..][..j];
        j + 1
  }

  /** Where `splice(start, …)` starts: a negative start counts from the end; both are clamped. */
  function SpliceStart(length: nat, start: int): (a: nat)
    ensures a <= length
  {
    if start < 0 then (if length + start < 0 then 0 else length + start)
    else if start > length then length
    else start
  }

  /** How many elements `splice(start, deleteCount, …)` deletes: `deleteCount` clamped to what is left. */
  function SpliceCount(length: nat, start: int, deleteCount: int): (d: nat)
    ensures SpliceStart(length, start) + d <= length
  {
    var a := SpliceStart(length, start);
    if deleteCount < 0 then 0
    else if deleteCount > length - a then length - a
    else deleteCount
  }

  /** The elements after `splice(start, deleteCount, ...items)`. */
  function Spliced<T>(s: seq<T>, start: int, deleteCount: int, items: seq<T>): seq<T>
  {
    var a := SpliceStart(|s|, start);
    s[..a] + items + s[a + SpliceCount(|s|, start, deleteCount)..]
  }

  // ---------------------------------------------------------------------------
  // remove(...items)
  // ---------------------------------------------------------------------------

  /** The elements of `s` that equal none of `items`, in their order in `s`. */
  function Without<T(==)>(s: seq<T>, items: seq<T>): seq<T>
    decreases |s|
  {
    if s == [] then [] else (if s[0] in items then [] else [s[0]]) + Without(s[1..], items)
  }

  /** Removing distributes over concatenation: each survivor stays where it was relative to the others. */
  lemma {:induction false} WithoutAppend<T>(a: seq<T>, b: seq<T>, items: seq<T>)
    ensures Without(a + b, items) == Without(a, items) + Without(b, items)
    decreases |a|
  {
    if a == [] {
      assert a + b == b;
    } else {
      assert (a + b)[0] == a[0];
      assert (a + b)[1..] == a[1..] + b;
      WithoutAppend(a[1..], b, items);
    }
  }

  /** A value survives exactly when it was there and is not one of `items`. */
  lemma {:induction false} WithoutMembers<T>(s: seq<T>, items: seq<T>, x: T)
    ensures x in Without(s, items) <==> x in s && x !in items
    decreases |s|
  {
    if s != [] {
      WithoutMembers(s[1..], items, x);
      assert s == [s[0]] + s[1..];
    }
  }

  /** Each value not in `items` keeps its number of occurrences; each value in `items` has none left. */
  lemma {:induction false} WithoutMultiset<T>(s: seq<T>, items: seq<T>, x: T)
    ensures multiset(Without(s, items))[x] == if x in items then 0 else multiset(s)[x]
    decreases |s|
  {
    if s != [] {
      WithoutMultiset(s[1..], items, x);
      assert s == [s[0]] + s[1..];
    }
  }

  /** Removing nothing that is there leaves the elements as they are. */
  lemma {:induction false} WithoutNothingPresent<T>(s: seq<T>, items: seq<T>)
    requires forall i :: 0 <= i < |s| ==> s[i] !in items
    ensures Without(s, items) == s
    decreases |s|
  {
    if s != [] {
      WithoutNothingPresent(s[1..], items);
      assert s == [s[0]] + s[1..];
    }
  }

  /** Removing one list of items and then another is removing both. */
  lemma {:induction false} WithoutTwice<T>(s: seq<T>, first: seq<T>, second: seq<T>)
    ensures Without(Without(s, first), second) == Without(s, first + second)
    decreases |s|
  {
    if s != [] {
      WithoutTwice(s[1..], first, second);
      var head := if s[0] in first then [] else [s[0]];
      WithoutAppend(head, Without(s[1..], first), second);
      if s[0] !in first {
        assert head[1..] == [];
      }
    }
  }

  /** Splicing out one occurrence of `x` shortens the array and does not change what removing every `x` leaves. */
  lemma {:induction false} DeleteOccurrence<T>(s: seq<T>, i: nat, x: T)
    requires i < |s| && s[i] == x
    ensures |Spliced(s, i, 1, [])| < |s|
    ensures Without(Spliced(s, i, 1, []), [x]) == Without(s, [x])
  {
    assert Spliced(s, i, 1, []) == s[..i] + s[i + 1..];
    assert s == s[..i] + [x] + s[i + 1..];
    WithoutAppend(s[..i] + [x], s[i + 1..], [x]);
    WithoutAppend(s[..i], [x], [x]);
    WithoutAppend(s[..i], s[i + 1..], [x]);
  }

  // ---------------------------------------------------------------------------
  // move(fromIndex, toIndex)
  // ---------------------------------------------------------------------------

  /** What `move` does: it returns normally, or throws a message naming both indices and the length. */
  datatype MoveOutcome = Returned | Thrown(fromIndex: int, toIndex: int, length: nat)

  /** The bounds `move` accepts for two different indices; the bound on `toIndex` is inclusive. */
  predicate MoveInBounds(length: nat, fromIndex: int, toIndex: int)
  {
    0 <= fromIndex < length && 0 <= toIndex <= length
  }

  /** Where the moved element is inserted once it has been taken out, which is where it ends. */
  function InsertionIndex(fromIndex: int, toIndex: int): int
  {
    if toIndex < fromIndex then toIndex else toIndex - 1
  }

  /** `s` without its element at `i`. */
  function RemoveAt<T>(s: seq<T>, i: nat): seq<T>
    requires i < |s|
  {
    s[..i] + s[i + 1..]
  }

  lemma {:induction false} RemoveAtMultiset<T>(s: seq<T>, i: nat)
    requires i < |s|
    ensures multiset(RemoveAt(s, i)) + multiset{s[i]} == multiset(s)
  {
    assert s == s[..i] + [s[i]] + s[i + 1..];
  }

  /** `s` with `x` inserted at index `k`; taking it out again gives `s`. */
  function InsertAt<T>(s: seq<T>, k: nat, x: T): (r: seq<T>)
    requires k <= |s|
    ensures |r| == |s| + 1 && r[k] == x
    ensures RemoveAt(r, k) == s
    ensures multiset(r) == multiset(s) + multiset{x}
  {
    var r := s[..k] + [x] + s[k..];
    assert r[..k] == s[..k] && r[k + 1..] == s[k..];
    assert s == s[..k] + s[k..];
    r
  }

  /** The elements after a successful `move(fromIndex, toIndex)` with two different indices. */
  function MovedTo<T>(s: seq<T>, fromIndex: int, toIndex: int): (r: seq<T>)
    requires MoveInBounds(|s|, fromIndex, toIndex) && fromIndex != toIndex
    ensures |r| == |s| && multiset(r) == multiset(s)
    ensures 0 <= InsertionIndex(fromIndex, toIndex) < |r|
    ensures r[InsertionIndex(fromIndex, toIndex)] == s[fromIndex]
    ensures RemoveAt(r, InsertionIndex(fromIndex, toIndex)) == RemoveAt(s, fromIndex)
  {
    RemoveAtMultiset(s, fromIndex);
    InsertAt(RemoveAt(s, fromIndex), InsertionIndex(fromIndex, toIndex), s[fromIndex])
  }

  /** Moving an element to just past itself leaves the array as it was. */
  lemma {:induction false} MoveToNextIsIdentity<T>(s: seq<T>, i: nat)
    requires i < |s|
    ensures MovedTo(s, i, i + 1) == s
  {
    assert s == s[..i] + [s[i]] + s[i + 1..];
  }

  /**
   * Where each element ends after a successful move: the moved one at the
   * insertion index, the ones it passed shifted by one towards where it came
   * from, the rest where they were.
   */
  lemma {:induction false} MovedToAt<T>(s: seq<T>, fromIndex: int, toIndex: int, i: nat)
    requires MoveInBounds(|s|, fromIndex, toIndex) && fromIndex != toIndex
    requires i < |s|
    ensures var k := InsertionIndex(fromIndex, toIndex);
      MovedTo(s, fromIndex, toIndex)[i] ==
        if i == k then s[fromIndex]
        else if k < i <= fromIndex then s[i - 1]
        else if fromIndex <= i < k then s[i + 1]
        else s[i]
  {
    var rest := RemoveAt(s, fromIndex);
    var k := InsertionIndex(fromIndex, toIndex);
    var r := MovedTo(s, fromIndex, toIndex);
    assert r == rest[..k] + [s[fromIndex]] + rest[k..];
    assert rest == s[..fromIndex] + s[fromIndex + 1..];
    if i < k {
      assert r[i] == rest[i];
    } else if i > k {
      assert r[i] == rest[i - 1];
    }
  }

  // ---------------------------------------------------------------------------
  // flatMap(selector)
  // ---------------------------------------------------------------------------

  /** `result || []` for a selector result: `null` or `undefined` (None) contributes no element. */
  function OrEmpty<U>(result: Option<seq<U>>): seq<U>
  {
    result.GetOr([])
  }

  /**
   * `flatMap(selector)`: `reduce` from the left, concatenating onto the
   * accumulated array the selector's result for each element in turn. The
   * receiver is only read.
   */
  function FlatMap<T, U>(s: seq<T>, selector: T -> Option<seq<U>>): seq<U>
    decreases |s|
  {
    if s == [] then [] else FlatMap(s[..|s| - 1], selector) + OrEmpty(selector(s[|s| - 1]))
  }

  /** The sum of the lengths of the selector's results, counted from the front. */
  function ResultLengths<T, U>(s: seq<T>, selector: T -> Option<seq<U>>): nat
    decreases |s|
  {
    if s == [] then 0 else |OrEmpty(selector(s[0]))| + ResultLengths(s[1..], selector)
  }

  /** `flatMap` of two arrays joined is the two `flatMap` results joined: it keeps the order of the elements. */
  lemma {:induction false} FlatMapAppend<T, U>(a: seq<T>, b: seq<T>, selector: T -> Option<seq<U>>)
    ensures FlatMap(a + b, selector) == FlatMap(a, selector) + FlatMap(b, selector)
    decreases |b|
  {
    if b == [] {
      assert a + b == a;
    } else {
      var init := b[..|b| - 1];
      assert (a + b)[..|a + b| - 1] == a + init;
      assert (a + b)[|a + b| - 1] == b[|b| - 1];
      FlatMapAppend(a, init, selector);
    }
  }

  /** The first element's result comes first, then the rest's, in order. */
  lemma {:induction false} FlatMapCons<T, U>(x: T, s: seq<T>, selector: T -> Option<seq<U>>)
    ensures FlatMap([x] + s, selector) == OrEmpty(selector(x)) + FlatMap(s, selector)
  {
    FlatMapAppend([x], s, selector);
    assert [x][..0] == [];
  }

  /** The result's length is the sum of the lengths of the selector's results. */
  lemma {:induction false} FlatMapLength<T, U>(s: seq<T>, selector: T -> Option<seq<U>>)
    ensures |FlatMap(s, selector)| == ResultLengths(s, selector)
    decreases |s|
  {
    if s != [] {
      FlatMapCons(s[0], s[1..], selector);
      assert [s[0]] + s[1..] == s;
      FlatMapLength(s[1..], selector);
    }
  }

  /** A value is in the result exactly when it is in the selector's result for some element. */
  lemma {:induction false} FlatMapMembers<T, U>(s: seq<T>, selector: T -> Option<seq<U>>, y: U)
    ensures y in FlatMap(s, selector) <==> exists i :: 0 <= i < |s| && y in OrEmpty(selector(s[i]))
    decreases |s|
  {
    if s != [] {
      FlatMapCons(s[0], s[1..], selector);
      assert [s[0]] + s[1..] == s;
      FlatMapMembers(s[1..], selector, y);
      if y in FlatMap(s[1..], selector) {
        var i :| 0 <= i < |s[1..]| && y in OrEmpty(selector(s[1..][i]));
        assert y in OrEmpty(selector(s[i + 1]));
      }
      if exists i :: 0 <= i < |s| && y in OrEmpty(selector(s[i])) {
        var i :| 0 <= i < |s| && y in OrEmpty(selector(s[i]));
        if i > 0 {
          assert y in OrEmpty(selector(s[1..][i - 1]));
        }
      }
    }
  }

  /** The arrays of `results` joined one after another, front to back. */
  function Concat<U>(results: seq<seq<U>>): seq<U>
    decreases |results|
  {
    if results == [] then [] else results[0] + Concat(results[1..])
  }

  /** Provider results merged with `flatMap(v => v)` come out one provider after another, for any number of providers. */
  lemma {:induction false} MergeInRegistryOrder<U>(results: seq<seq<U>>)
    ensures FlatMap(results, (v: seq<U>) => Some(v)) == Concat(results)
    decreases |results|
  {
    if results != [] {
      FlatMapCons(results[0], results[1..], (v: seq<U>) => Some(v));
      assert [results[0]] + results[1..] == results;
      MergeInRegistryOrder(results[1..]);
    }
  }

  // ---------------------------------------------------------------------------
  // distinct()
  // ---------------------------------------------------------------------------

  /** No value occurs twice. */
  predicate NoDuplicates<T(==)>(s: seq<T>)
  {
    forall i, j :: 0 <= i < j < |s| ==> s[i] != s[j]
  }

  /**
   * The filter of `distinct` over the first `n` elements: the element at
   * index `i` is kept when `indexOf` of it, over the whole array, is `i`.
   */
  function FirstOccurrencesUpTo<T(==)>(s: seq<T>, n: nat): seq<T>
    requires n <= |s|
    decreases n
  {
    if n == 0 then []
    else FirstOccurrencesUpTo(s, n - 1) + (if FirstIndex(s, s[n - 1]) == n - 1 then [s[n - 1]] else [])
  }

  /** `distinct()`: the elements that are the first occurrence of their value, in order. */
  function Distinct<T(==)>(s: seq<T>): seq<T>
  {
    FirstOccurrencesUpTo(s, |s|)
  }

  /** Reference definition: an element is kept when no element before it is equal to it. */
  function Dedup<T(==)>(s: seq<T>): seq<T>
    decreases |s|
  {
    if s == [] then []
    else
      var init := s[..|s| - 1];
      Dedup(init) + (if s[|s| - 1] in init then [] else [s[|s| - 1]])
  }

  /** `indexOf` of an element is its own index exactly when no equal element comes before it. */
  lemma {:induction false} FirstIndexIsOwn<T>(s: seq<T>, i: nat)
    requires i < |s|
    ensures FirstIndex(s, s[i]) == i <==> s[i] !in s[..i]
  {
  }

  lemma {:induction false} FirstOccurrencesUpToIsDedup<T>(s: seq<T>, n: nat)
    requires n <= |s|
    ensures FirstOccurrencesUpTo(s, n) == Dedup(s[..n])
    decreases n
  {
    if n > 0 {
      FirstOccurrencesUpToIsDedup(s, n - 1);
      FirstIndexIsOwn(s, n - 1);
      assert s[..n][..n - 1] == s[..n - 1];
      assert s[..n][n - 1] == s[n - 1];
    }
  }

  /** `distinct` agrees with the reference definition. */
  lemma {:induction false} DistinctIsDedup<T>(s: seq<T>)
    ensures Distinct(s) == Dedup(s)
  {
    FirstOccurrencesUpToIsDedup(s, |s|);
    assert s[..|s|] == s;
  }

  lemma {:induction false} DedupMembers<T>(s: seq<T>, x: T)
    ensures x in Dedup(s) <==> x in s
    decreases |s|
  {
    if s != [] {
      var init := s[..|s| - 1];
      DedupMembers(init, x);
      assert s == init + [s[|s| - 1]];
    }
  }

  lemma {:induction false} DedupNoDuplicates<T>(s: seq<T>)
    ensures NoDuplicates(Dedup(s))
    decreases |s|
  {
    if s != [] {
      var init := s[..|s| - 1];
      DedupNoDuplicates(init);
      DedupMembers(init, s[|s| - 1]);
    }
  }

  lemma {:induction false} DedupOfDistinctValues<T>(s: seq<T>)
    requires NoDuplicates(s)
    ensures Dedup(s) == s
    decreases |s|
  {
    if s != [] {
      var init := s[..|s| - 1];
      DedupOfDistinctValues(init);
      assert s == init + [s[|s| - 1]];
    }
  }

  /** Every value of the array is in the result of `distinct`, and nothing else is. */
  lemma {:induction false} DistinctMembers<T>(s: seq<T>, x: T)
    ensures x in Distinct(s) <==> x in s
  {
    DistinctIsDedup(s);
    DedupMembers(s, x);
  }

  /** The result of `distinct` has no value twice. */
  lemma {:induction false} DistinctNoDuplicates<T>(s: seq<T>)
    ensures NoDuplicates(Distinct(s))
  {
    DistinctIsDedup(s);
    DedupNoDuplicates(s);
  }

  /** Appending a value appends it to the result of `distinct` exactly when it was not there yet. */
  lemma {:induction false} DistinctAppend<T>(s: seq<T>, x: T)
    ensures Distinct(s + [x]) == Distinct(s) + (if x in s then [] else [x])
  {
    DistinctIsDedup(s + [x]);
    DistinctIsDedup(s);
    assert (s + [x])[..|s + [x]| - 1] == s;
  }

  /** Applying `distinct` twice gives the same as applying it once. */
  lemma {:induction false} DistinctIdempotent<T>(s: seq<T>)
    ensures Distinct(Distinct(s)) == Distinct(s)
  {
    DistinctNoDuplicates(s);
    DistinctIsDedup(Distinct(s));
    DedupOfDistinctValues(Distinct(s));
  }

  // ---------------------------------------------------------------------------
  // The array object
  // ---------------------------------------------------------------------------

  class JsArray<T(==)> {
    var elems: seq<T>

    constructor (init: seq<T>)
      ensures elems == init
    {
      elems := init;
    }

    /** `splice(start, deleteCount, ...items)`: replaces a clamped slice in place and returns what it took out. */
    method Splice(start: int, deleteCount: int, items: seq<T>) returns (removed: seq<T>)
      modifies this
      ensures elems == Spliced(old(elems), start, deleteCount, items)
      ensures var a := SpliceStart(|old(elems)|, start);
        removed == old(elems)[a..a + SpliceCount(|old(elems)|, start, deleteCount)]
    {
      var a := SpliceStart(|elems|, start);
      var d := SpliceCount(|elems|, start, deleteCount);
      removed := elems[a..a + d];
      elems := elems[..a] + items + elems[a + d..];
    }

    /** `remove(...items)`: deletes, in place, every element equal to one of `items`, and returns this array. */
    method Remove(items: seq<T>) returns (self: JsArray<T>)
      modifies this
      ensures self == this
      ensures elems == Without(old(elems), items)
    {
      ghost var original := elems;
      WithoutNothingPresent(original, items[..0]);
      for k := 0 to |items|
        invariant elems == Without(original, items[..k])
      {
        RemoveEvery(items[k]);
        WithoutTwice(original, items[..k], [items[k]]);
        assert items[..k] + [items[k]] == items[..k + 1];
      }
      assert items[..|items|] == items;
      self := this;
    }

    /** The `while (true)` loop of `remove` for one item: `splice` out its first occurrence until `indexOf` finds none. */
    method RemoveEvery(item: T)
      modifies this
      ensures elems == Without(old(elems), [item])
    {
      ghost var original := elems;
      while true
        invariant Without(elems, [item]) == Without(original, [item])
        decreases |elems|
      {
        var index := FirstIndex(elems, item);
        if index >= 0 {
          DeleteOccurrence(elems, index, item);
          var removed := Splice(index, 1, []);
        } else {
          WithoutNothingPresent(elems, [item]);
          break;
        }
      }
    }

    /** `removeAll()`: empties this array in place and returns it. */
    method RemoveAll() returns (self: JsArray<T>)
      modifies this
      ensures self == this
      ensures elems == []
    {
      var removed := Splice(0, |elems|, []);
      self := this;
    }

    /**
     * `move(fromIndex, toIndex)`: equal indices return at once, whatever they
     * are; otherwise indices out of bounds throw and leave the array as it
     * was, and indices in bounds take the element out and insert it again.
     */
    method Move(fromIndex: int, toIndex: int) returns (outcome: MoveOutcome)
      modifies this
      ensures outcome.Thrown? <==> fromIndex != toIndex && !MoveInBounds(|old(elems)|, fromIndex, toIndex)
      ensures outcome.Thrown? ==> outcome == Thrown(fromIndex, toIndex, |old(elems)|)
      ensures elems == if outcome.Returned? && fromIndex != toIndex
                       then MovedTo(old(elems), fromIndex, toIndex)
                       else old(elems)
    {
      if fromIndex == toIndex {
        return Returned;
      }
      if fromIndex < 0 || fromIndex >= |elems| || toIndex < 0 || toIndex > |elems| {
        return Thrown(fromIndex, toIndex, |elems|);
      }
      ghost var original := elems;
      var item := elems[fromIndex];
      var removed := Splice(fromIndex, 1, []);
      ghost var rest := elems;
      assert rest == RemoveAt(original, fromIndex);
      var k := if toIndex < fromIndex then toIndex else toIndex - 1;
      removed := Splice(k, 0, [item]);
      assert elems == rest[..k] + [item] + rest[k..];
      outcome := Returned;
    }
  }
}
