/**
 * The registry of hover providers (src/HoverProvidersRegistry.ts): a list
 * kept in descending order of priority, a missing priority counting as 0.
 * Each registration pushes the provider and sorts the whole list again with
 * the built-in `Array.prototype.sort`, which ECMAScript 2019 (section
 * 22.1.3.27 of ECMA-262, 10th edition) requires to be stable, so providers of
 * equal priority stay in the order they were registered.
 */
module ProvidersRegistry {
  import opened Wrappers

  /**
   * A provider as the registry sees it: `id` stands for the identity of the
   * provider object (its `Get$` is never called here) and `priority` for its
   * optional `Priority` property.
   */
  datatype Provider = Provider(id: nat, priority: Option<int>)

  /** `provider.Priority || 0`. */
  function EffectivePriority(p: Provider): int
  {
    p.priority.GetOr(0)
  }

  /** The comparator given to `sort`: negative when `p1` belongs before `p2`. */
  function Compare(p1: Provider, p2: Provider): int
  {
    EffectivePriority(p2) - EffectivePriority(p1)
  }

  /** Every provider comes no later than one the comparator would put before it. */
  predicate SortedByPriority(s: seq<Provider>)
  {
    forall i, j :: 0 <= i < j < |s| ==> Compare(s[i], s[j]) <= 0
  }

  /** The providers of effective priority `k`, in their order in `s`. */
  function WithPriority(s: seq<Provider>, k: int): seq<Provider>
    decreases |s|
  {
    if s == [] then [] else (if EffectivePriority(s[0]) == k then [s[0]] else []) + WithPriority(s[1..], k)
  }

  /** Places `p` before the first provider the comparator puts after it, so after every one it ties with. */
  function InsertByPriority(s: seq<Provider>, p: Provider): seq<Provider>
    decreases |s|
  {
    if s == [] then [p]
    else if Compare(s[0], p) > 0 then [p] + s
    else [s[0]] + InsertByPriority(s[1..], p)
  }

  /** The built-in stable `sort` with `Compare`, as an insertion sort taking the elements in order. */
  function SortByPriority(s: seq<Provider>): seq<Provider>
    decreases |s|
  {
    if s == [] then [] else InsertByPriority(SortByPriority(s[..|s| - 1]), s[|s| - 1])
  }

  // ---------------------------------------------------------------------------
  // Inserting one provider
  // ---------------------------------------------------------------------------

  lemma {:induction false} WithPriorityAppend(a: seq<Provider>, b: seq<Provider>, k: int)
    ensures WithPriority(a + b, k) == WithPriority(a, k) + WithPriority(b, k)
    decreases |a|
  {
    if a == [] {
      assert a + b == b;
    } else {
      var head := if EffectivePriority(a[0]) == k then [a[0]] else [];
      assert (a + b)[0] == a[0];
      assert (a + b)[1..] == a[1..] + b;
      assert WithPriority(a + b, k) == head + WithPriority(a[1..] + b, k);
      assert WithPriority(a, k) == head + WithPriority(a[1..], k);
      WithPriorityAppend(a[1..], b, k);
    }
  }

  lemma {:induction false} WithPriorityNone(s: seq<Provider>, k: int)
    requires forall i :: 0 <= i < |s| ==> EffectivePriority(s[i]) < k
    ensures WithPriority(s, k) == []
    decreases |s|
  {
    if s != [] {
      WithPriorityNone(s[1..], k);
    }
  }

  lemma SortedTail(s: seq<Provider>)
    requires SortedByPriority(s) && s != []
    ensures SortedByPriority(s[1..])
  {
    forall i, j | 0 <= i < j < |s[1..]|
      ensures Compare(s[1..][i], s[1..][j]) <= 0
    {
      assert s[1..][i] == s[i + 1] && s[1..][j] == s[j + 1];
    }
  }

  /**
   * In a sorted list, `p` lands after every provider of priority at least its
   * own and before every provider of lower priority.
   */
  lemma {:induction false} InsertPosition(s: seq<Provider>, p: Provider) returns (at: nat)
    requires SortedByPriority(s)
    ensures at <= |s|
    ensures InsertByPriority(s, p) == s[..at] + [p] + s[at..]
    ensures forall i :: 0 <= i < at ==> EffectivePriority(s[i]) >= EffectivePriority(p)
    ensures forall i :: at <= i < |s| ==> EffectivePriority(s[i]) < EffectivePriority(p)
    decreases |s|
  {
    if s == [] {
      at := 0;
    } else if Compare(s[0], p) > 0 {
      at := 0;
    } else {
      var rest := InsertPosition(s[1..], p);
      at := rest + 1;
      assert s[..at] == [s[0]] + s[1..][..rest];
      assert s[at..] == s[1..][rest..];
    }
  }

  lemma {:induction false} InsertSorted(s: seq<Provider>, p: Provider)
    requires SortedByPriority(s)
    ensures SortedByPriority(InsertByPriority(s, p))
  {
    var at := InsertPosition(s, p);
    var r := InsertByPriority(s, p);
    forall i, j | 0 <= i < j < |r|
      ensures Compare(r[i], r[j]) <= 0
    {
      if j < at {
        assert r[i] == s[i] && r[j] == s[j];
      } else if j == at {
        assert r[i] == s[i];
      } else if i < at {
        assert r[i] == s[i] && r[j] == s[j - 1];
      } else if i > at {
        assert r[i] == s[i - 1] && r[j] == s[j - 1];
      }
    }
  }

  /** Inserting adds exactly the one provider, whatever the list. */
  lemma {:induction false} InsertMultiset(s: seq<Provider>, p: Provider)
    ensures multiset(InsertByPriority(s, p)) == multiset(s) + multiset{p}
    decreases |s|
  {
    if s != [] && Compare(s[0], p) <= 0 {
      InsertMultiset(s[1..], p);
      assert s == [s[0]] + s[1..];
    }
  }

  lemma {:induction false} InsertStable(s: seq<Provider>, p: Provider, k: int)
    requires SortedByPriority(s)
    ensures WithPriority(InsertByPriority(s, p), k)
         == WithPriority(s, k) + (if EffectivePriority(p) == k then [p] else [])
    decreases |s|
  {
    var tail := if EffectivePriority(p) == k then [p] else [];
    if s == [] {
    } else if Compare(s[0], p) > 0 {
      assert InsertByPriority(s, p) == [p] + s;
      WithPriorityAppend([p], s, k);
      if EffectivePriority(p) == k {
        assert WithPriority(s, k) == [] by {
          forall i | 0 <= i < |s|
            ensures EffectivePriority(s[i]) < k
          {
            if i > 0 {
              assert Compare(s[0], s[i]) <= 0;
            }
          }
          WithPriorityNone(s, k);
        }
      }
    } else {
      var rest := InsertByPriority(s[1..], p);
      assert InsertByPriority(s, p) == [s[0]] + rest;
      assert WithPriority(rest, k) == WithPriority(s[1..], k) + tail by {
        SortedTail(s);
        InsertStable(s[1..], p, k);
      }
      WithPriorityAppend([s[0]], rest, k);
      WithPriorityAppend([s[0]], s[1..], k);
      assert [s[0]] + s[1..] == s;
    }
  }

  // ---------------------------------------------------------------------------
  // The stable sort
  // ---------------------------------------------------------------------------

  /** `sort` leaves the list in descending order of effective priority. */
  lemma {:induction false} SortSorted(s: seq<Provider>)
    ensures SortedByPriority(SortByPriority(s))
    decreases |s|
  {
    if s != [] {
      var init := s[..|s| - 1];
      SortSorted(init);
      InsertSorted(SortByPriority(init), s[|s| - 1]);
    }
  }

  /** `sort` keeps the same providers, each as many times as before. */
  lemma {:induction false} SortMultiset(s: seq<Provider>)
    ensures multiset(SortByPriority(s)) == multiset(s)
    decreases |s|
  {
    if s != [] {
      var init := s[..|s| - 1];
      SortMultiset(init);
      InsertMultiset(SortByPriority(init), s[|s| - 1]);
      assert s == init + [s[|s| - 1]];
    }
  }

  /** `sort` is stable: the providers of each priority keep their relative order. */
  lemma {:induction false} SortStable(s: seq<Provider>, k: int)
    ensures WithPriority(SortByPriority(s), k) == WithPriority(s, k)
    decreases |s|
  {
    if s != [] {
      var init, last := s[..|s| - 1], s[|s| - 1];
      var tail := if EffectivePriority(last) == k then [last] else [];
      var sorted := SortByPriority(init);
      assert SortByPriority(s) == InsertByPriority(sorted, last);
      assert WithPriority(InsertByPriority(sorted, last), k) == WithPriority(sorted, k) + tail by {
        SortSorted(init);
        InsertStable(sorted, last, k);
      }
      SortStable(init, k);
      assert WithPriority(s, k) == WithPriority(init, k) + tail by {
        assert WithPriority([last], k) == tail;
        WithPriorityAppend(init, [last], k);
        assert s == init + [last];
      }
    }
  }

  lemma {:induction false} InsertAtEnd(s: seq<Provider>, p: Provider)
    requires forall i :: 0 <= i < |s| ==> Compare(s[i], p) <= 0
    ensures InsertByPriority(s, p) == s + [p]
    decreases |s|
  {
    if s != [] {
      InsertAtEnd(s[1..], p);
      assert s == [s[0]] + s[1..];
    }
  }

  /** Sorting a list that is already sorted leaves it as it is. */
  lemma {:induction false} SortOfSorted(s: seq<Provider>)
    requires SortedByPriority(s)
    ensures SortByPriority(s) == s
    decreases |s|
  {
    if s != [] {
      var init := s[..|s| - 1];
      SortOfSorted(init);
      InsertAtEnd(init, s[|s| - 1]);
      assert s == init + [s[|s| - 1]];
    }
  }

  lemma {:induction false} WithPriorityMembers(s: seq<Provider>, k: int, p: Provider)
    ensures p in WithPriority(s, k) <==> p in s && EffectivePriority(p) == k
    decreases |s|
  {
    if s != [] {
      WithPriorityMembers(s[1..], k, p);
      assert s == [s[0]] + s[1..];
    }
  }

  /**
   * If the providers of `other[0]`'s priority are the same, in the same order,
   * in `other` and in the sorted list `r`, then `other[0]`'s priority is at
   * most that of `r[0]`.
   */
  lemma {:induction false} HeadHasTopPriority(r: seq<Provider>, other: seq<Provider>)
    requires SortedByPriority(r) && r != [] && other != []
    requires WithPriority(other, EffectivePriority(other[0])) == WithPriority(r, EffectivePriority(other[0]))
    ensures EffectivePriority(other[0]) <= EffectivePriority(r[0])
  {
    var m := EffectivePriority(other[0]);
    WithPriorityMembers(other, m, other[0]);
    WithPriorityMembers(r, m, other[0]);
    var j :| 0 <= j < |r| && r[j] == other[0];
    if j > 0 {
      assert Compare(r[0], r[j]) <= 0;
    }
  }

  /**
   * Two sorted lists whose providers of each priority come in the same order
   * are the same list: a stable sort has only one possible result.
   */
  lemma {:induction false} SortedProjectionsDetermine(r1: seq<Provider>, r2: seq<Provider>)
    requires SortedByPriority(r1) && SortedByPriority(r2)
    requires forall k :: WithPriority(r1, k) == WithPriority(r2, k)
    ensures r1 == r2
    decreases |r1|
  {
    if r1 == [] || r2 == [] {
      var r := if r1 == [] then r2 else r1;
      if r != [] {
        WithPriorityMembers(r, EffectivePriority(r[0]), r[0]);
      }
    } else {
      HeadHasTopPriority(r1, r2);
      HeadHasTopPriority(r2, r1);
      var m := EffectivePriority(r1[0]);
      assert WithPriority(r1, m) == [r1[0]] + WithPriority(r1[1..], m);
      assert WithPriority(r2, m) == [r2[0]] + WithPriority(r2[1..], m);
      forall k
        ensures WithPriority(r1[1..], k) == WithPriority(r2[1..], k)
      {
        assert WithPriority(r1, k) == WithPriority(r2, k);
        assert WithPriority(r1, k) == (if k == m then [r1[0]] else []) + WithPriority(r1[1..], k);
        assert WithPriority(r2, k) == (if k == m then [r2[0]] else []) + WithPriority(r2[1..], k);
        if k == m {
          assert WithPriority(r1[1..], k) == WithPriority(r1, k)[1..];
          assert WithPriority(r2[1..], k) == WithPriority(r2, k)[1..];
        } else {
          assert WithPriority(r1[1..], k) == WithPriority(r1, k);
          assert WithPriority(r2[1..], k) == WithPriority(r2, k);
        }
      }
      assert r1[0] == WithPriority(r1, m)[0] == WithPriority(r2, m)[0] == r2[0];
      SortedProjectionsDetermine(r1[1..], r2[1..]);
      assert r1 == [r1[0]] + r1[1..];
      assert r2 == [r2[0]] + r2[1..];
    }
  }

  /**
   * Whatever stable algorithm the engine's `sort` uses, its result is this
   * model's: any sorted list that keeps the order within each priority is it.
   */
  lemma {:induction false} StableSortIsUnique(s: seq<Provider>, r: seq<Provider>)
    requires SortedByPriority(r)
    requires forall k :: WithPriority(r, k) == WithPriority(s, k)
    ensures r == SortByPriority(s)
  {
    SortSorted(s);
    SortStableAll(s);
    SortedProjectionsDetermine(r, SortByPriority(s));
  }

  /** Pushing onto a sorted list and sorting again is sorting the whole registration history. */
  lemma {:induction false} SortAfterPush(registered: seq<Provider>, p: Provider)
    ensures SortByPriority(SortByPriority(registered) + [p]) == SortByPriority(registered + [p])
  {
    var sorted := SortByPriority(registered);
    SortSorted(registered);
    SortOfSorted(sorted);
    assert (sorted + [p])[..|sorted + [p]| - 1] == sorted;
    assert (registered + [p])[..|registered + [p]| - 1] == registered;
  }

  /**
   * What `AddProvider` does to a sorted list: pushing a provider and sorting
   * again gives a list one longer, with the provider added to the multiset,
   * sorted, and with the provider after every provider of its own priority.
   */
  lemma {:induction false} PushThenSort(s: seq<Provider>, p: Provider)
    requires SortedByPriority(s)
    ensures |SortByPriority(s + [p])| == |s| + 1
    ensures multiset(SortByPriority(s + [p])) == multiset(s) + multiset{p}
    ensures SortedByPriority(SortByPriority(s + [p]))
    ensures forall k ::
              WithPriority(SortByPriority(s + [p]), k)
              == WithPriority(s, k) + (if EffectivePriority(p) == k then [p] else [])
  {
    assert (s + [p])[..|s + [p]| - 1] == s;
    SortOfSorted(s);
    var r := SortByPriority(s + [p]);
    assert r == InsertByPriority(s, p);
    InsertSorted(s, p);
    InsertMultiset(s, p);
    assert |r| == |multiset(r)|;
    forall k
      ensures WithPriority(r, k) == WithPriority(s, k) + (if EffectivePriority(p) == k then [p] else [])
    {
      InsertStable(s, p, k);
    }
  }

  /**
   * In a sorted list a provider without a priority comes after every provider
   * of positive priority and before every provider of negative priority.
   */
  lemma {:induction false} NoPriorityBetweenSigns(s: seq<Provider>, i: nat, j: nat)
    requires SortedByPriority(s)
    requires i < |s| && j < |s|
    requires s[i].priority.None? && s[j].priority.Some?
    ensures s[j].priority.value > 0 ==> j < i
    ensures s[j].priority.value < 0 ==> i < j
  {
    if i < j {
      assert Compare(s[i], s[j]) <= 0;
    } else if j < i {
      assert Compare(s[j], s[i]) <= 0;
    }
  }

  // ---------------------------------------------------------------------------
  // The registry object
  // ---------------------------------------------------------------------------

  class HoverProvidersRegistry {
    /** `_providers`: the registered providers in the order `sort` left them. */
    var providers: seq<Provider>
    /** Every provider passed to `AddProvider`, in the order of the calls. */
    ghost var registered: seq<Provider>

    /** The list is always the stable sort of what was registered. */
    ghost predicate Valid()
      reads this
    {
      providers == SortByPriority(registered)
    }

    /** A new registry has no providers. */
    constructor ()
      ensures Valid()
      ensures registered == [] && providers == []
    {
      providers := [];
      registered := [];
    }

    /**
     * `AddProvider(provider)`: pushes the provider and sorts the list again.
     * The list gains exactly this provider, stays sorted, and the providers
     * of each priority keep their order of registration.
     */
    method AddProvider(provider: Provider)
      requires Valid()
      modifies this
      ensures Valid()
      ensures registered == old(registered) + [provider]
      ensures providers == SortByPriority(old(providers) + [provider])
      ensures |providers| == |old(providers)| + 1
      ensures multiset(providers) == multiset(old(providers)) + multiset{provider}
      ensures SortedByPriority(providers)
      ensures forall k ::
                WithPriority(providers, k)
                == WithPriority(old(providers), k) + (if EffectivePriority(provider) == k then [provider] else [])
    {
      SortAfterPush(registered, provider);
      SortSorted(registered);
      PushThenSort(providers, provider);
      providers := providers + [provider];
      providers := SortByPriority(providers);
      registered := registered + [provider];
    }

    /** The `Providers` getter: the current list, sorted, holding exactly what was registered. */
    function Providers(): (r: seq<Provider>)
      reads this
      requires Valid()
      ensures SortedByPriority(r)
      ensures multiset(r) == multiset(registered)
      ensures forall k :: WithPriority(r, k) == WithPriority(registered, k)
    {
      SortSorted(registered);
      SortMultiset(registered);
      SortStableAll(registered);
      providers
    }
  }

  /** Stability for every priority at once. */
  lemma {:induction false} SortStableAll(s: seq<Provider>)
    ensures forall k :: WithPriority(SortByPriority(s), k) == WithPriority(s, k)
  {
    forall k
      ensures WithPriority(SortByPriority(s), k) == WithPriority(s, k)
    {
      SortStable(s, k);
    }
  }
}
