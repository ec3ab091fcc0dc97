# atom-ide-hover: array helpers and the hover provider registry

This project models the two pieces of sequential logic in the atom-ide-hover
package and proves properties of them in Dafny.

- **Array helpers** (`src/array.extend.ts`) add five methods to `Array.prototype`.
  - `remove(...items)` deletes every occurrence of each item, in place, and returns the array.
  - `removeAll()` empties the array in place and returns it.
  - `flatMap(selector)` concatenates the selector's results. A `null` or `undefined` result counts as empty.
  - `move(from, to)` moves one element in place. Indices out of bounds throw, unless the two indices are equal.
  - `distinct()` keeps the first occurrence of each value.
- **Hover provider registry** (`src/HoverProvidersRegistry.ts`) keeps the providers in descending order of `Priority`. A missing priority counts as 0.
  - `AddProvider` pushes the provider and sorts the whole list again.
  - ECMAScript 2019 requires `Array.prototype.sort` to be stable (section 22.1.3.27 of ECMA-262, 10th edition). So providers of equal priority stay in registration order.
  - The popup merges provider results with `flatMap` in the registry's order (`src/PopupView.tsx:81-83`).

Files:

- `wrappers.dfy`: module `Wrappers`. `Option` stands for a value that may be `null` or `undefined`.
- `array_extend.dfy`: module `ArrayExtend`.
  - A JavaScript array is the class `JsArray` with one `seq` field. `remove`, `removeAll` and `move` are methods that change the field through a modelled `splice`, as the source does.
  - `indexOf` is the function `FirstIndex`. `splice` is the method `JsArray.Splice`, specified by the function `Spliced`.
  - `flatMap` and `distinct` build new arrays, so they are functions on the elements. The receiver is never changed.
  - `FlatMap` models `flatMap`. `Distinct`, through `FirstOccurrencesUpTo`, models `distinct`'s filter.
  - Element equality is Dafny equality, which stands for `===`.
- `hover_providers_registry.dfy`: module `ProvidersRegistry`.
  - The registry is a class with the `_providers` list as a `seq` field. A ghost field records every provider registered, in call order.
  - `EffectivePriority` models `Priority || 0`, and `Compare` models the comparator `(p2.Priority || 0) - (p1.Priority || 0)`.
  - `SortByPriority` models the built-in stable `sort` as a functional insertion sort that uses `Compare`.
  - `StableSortIsUnique` proves that every stable sort gives the same result. So the model does not depend on which algorithm the engine uses.

Two points about providers, from the code:

- The `HoverProvider` interface declares only `Get$`, and the registry reads an optional `Priority`. The model's provider is an identity plus an optional integer priority.
- The registry is a plain array, so registering the same provider twice keeps both entries. `AddProvider`'s multiset postcondition states this.

## Model

| member | source | states |
|---|---|---|
| ArrayExtend.FirstIndex | src/array.extend.ts:12 | `indexOf`: the result is -1 exactly when no element equals the item; otherwise it is an index holding the item with no equal element before it |
| ArrayExtend.JsArray.Remove | src/array.extend.ts:9-23 | `remove(...items)` leaves exactly `Without(old elements, items)` in the same array and returns that same array |
| ArrayExtend.JsArray.RemoveEvery | src/array.extend.ts:11-19 | the `while (true)` loop for one item leaves the elements with every occurrence of that item removed, and only those |
| ArrayExtend.WithoutMembers | src/array.extend.ts:9-20 | after `remove`, a value is present exactly when it was present before and is not one of the items: nothing equal to an item remains |
| ArrayExtend.WithoutMultiset | src/array.extend.ts:9-20 | each value that is not an item keeps its number of occurrences; each item has none left |
| ArrayExtend.WithoutAppend | src/array.extend.ts:9-22 | removing distributes over concatenation, so the survivors keep their original relative order |
| ArrayExtend.WithoutTwice | src/array.extend.ts:10-20 | removing the items one after another, as the `for` loop does, is the same as removing them all at once |
| ArrayExtend.WithoutNothingPresent | src/array.extend.ts:14-18 | when `indexOf` finds no occurrence, removing changes nothing, which is why the loop may stop |
| ArrayExtend.DeleteOccurrence | src/array.extend.ts:15 | splicing out one occurrence shortens the array, so the loop terminates, and leaves the same survivors |
| ArrayExtend.JsArray.RemoveAll | src/array.extend.ts:29-33 | `removeAll()` leaves the same array with no elements and returns it |
| ArrayExtend.FlatMapAppend | src/array.extend.ts:25-27 | `flatMap` of two arrays joined is the two results joined: the selector results are concatenated in element order |
| ArrayExtend.FlatMapCons | src/array.extend.ts:25-27 | the first element's selector result comes first; a `null`/`undefined` result contributes nothing |
| ArrayExtend.FlatMapLength | src/array.extend.ts:25-27 | the result length is the sum of the selector results' lengths |
| ArrayExtend.FlatMapMembers | src/array.extend.ts:25-27 | a value is in the result exactly when some element's selector result holds it |
| ArrayExtend.MergeInRegistryOrder | src/PopupView.tsx:81-83 | merging any number of providers' results with `flatMap(v => v)` gives each provider's items in turn, in registry order |
| ArrayExtend.JsArray.Move | src/array.extend.ts:35-49 | equal indices return without change and never throw, even out of range; otherwise it throws with both indices and the length exactly when `from` is outside `[0, length)` or `to` outside `[0, length]`, leaving the array unchanged; in bounds, the array becomes `MovedTo(old, from, to)` |
| ArrayExtend.MovedTo | src/array.extend.ts:45-48 | a successful move keeps the length and the multiset, puts the moved element at `to` when `to < from` and at `to - 1` otherwise, and leaves the other elements in their relative order |
| ArrayExtend.MovedToAt | src/array.extend.ts:45-48 | the position of every element after a move: the moved one at its final index, the ones it passed shifted by one, the rest unchanged |
| ArrayExtend.MoveToNextIsIdentity | src/array.extend.ts:47-48 | moving an element to `from + 1` leaves the array as it was |
| ArrayExtend.FirstIndexIsOwn | src/array.extend.ts:52 | the `distinct` filter test `indexOf(item) === index` holds exactly when no equal element comes before the index |
| ArrayExtend.DistinctIsDedup | src/array.extend.ts:51-53 | `distinct` equals the reference definition that keeps an element when no earlier element equals it |
| ArrayExtend.DistinctMembers | src/array.extend.ts:51-53 | every value of the array is in the result of `distinct`, and no other value is |
| ArrayExtend.DistinctNoDuplicates | src/array.extend.ts:51-53 | the result of `distinct` has no value twice |
| ArrayExtend.DistinctAppend | src/array.extend.ts:51-53 | appending a value appends it to the result exactly when it was not already present, so first occurrences are kept in original order |
| ArrayExtend.DistinctIdempotent | src/array.extend.ts:51-53 | applying `distinct` again gives the same result |
| ProvidersRegistry.HoverProvidersRegistry.constructor | src/HoverProvidersRegistry.ts:4 | a new registry has an empty provider list and nothing registered |
| ProvidersRegistry.HoverProvidersRegistry.AddProvider | src/HoverProvidersRegistry.ts:6-10 | after push and sort: the list is one longer, its multiset is the old one plus the provider (nothing dropped or deduplicated), it is sorted by descending priority, each priority's providers are the old ones followed by the new one, and the list is the stable sort of the whole registration history |
| ProvidersRegistry.HoverProvidersRegistry.Providers | src/HoverProvidersRegistry.ts:12-14 | the getter only reads; it returns the current list, which is sorted, holds exactly the registered providers and keeps each priority's providers in registration order |
| ProvidersRegistry.InsertPosition | src/HoverProvidersRegistry.ts:9 | sorting a sorted list after a push puts the new provider after every provider of priority at least its own and before every provider of lower priority |
| ProvidersRegistry.InsertSorted | src/HoverProvidersRegistry.ts:9 | that insertion keeps the list sorted |
| ProvidersRegistry.InsertMultiset | src/HoverProvidersRegistry.ts:9 | that insertion adds exactly the new provider to the multiset and drops nothing |
| ProvidersRegistry.InsertStable | src/HoverProvidersRegistry.ts:9 | that insertion appends the new provider to its own priority class and leaves the other classes unchanged |
| ProvidersRegistry.SortSorted | src/HoverProvidersRegistry.ts:9 | the comparator sort gives a list in descending order of effective priority (a missing `Priority` counting as 0) |
| ProvidersRegistry.SortMultiset | src/HoverProvidersRegistry.ts:9 | the comparator sort keeps the same providers, each as many times as before |
| ProvidersRegistry.SortStable | src/HoverProvidersRegistry.ts:9 | the sort is stable: the providers of each priority keep their relative order |
| ProvidersRegistry.SortStableAll | src/HoverProvidersRegistry.ts:9 | stability for all priorities at once |
| ProvidersRegistry.SortOfSorted | src/HoverProvidersRegistry.ts:9 | sorting an already sorted list leaves it unchanged |
| ProvidersRegistry.PushThenSort | src/HoverProvidersRegistry.ts:7-9 | push then sort on a sorted list: one longer, the multiset plus the provider, sorted, and the provider last among those of its own priority |
| ProvidersRegistry.SortAfterPush | src/HoverProvidersRegistry.ts:7-9 | pushing onto the sorted list and sorting again equals sorting the whole registration history |
| ProvidersRegistry.SortedProjectionsDetermine | src/HoverProvidersRegistry.ts:9 | two sorted lists with the same providers in the same order within each priority are equal |
| ProvidersRegistry.StableSortIsUnique | src/HoverProvidersRegistry.ts:9 | any sorted list that keeps each priority's order equals the model's sort, so every stable `sort` gives the same list |
| ProvidersRegistry.NoPriorityBetweenSigns | src/HoverProvidersRegistry.ts:9 | in the sorted list, a provider without `Priority` comes after every provider of positive priority and before every provider of negative priority |

## Left out

- `src/PopupView.tsx` is not part of this model. It holds the asynchronous refresh (`refreshHoverProviders$`), whose meaning depends on promise interleaving; the 1000 ms progress timer; and rendering. Only its use of `flatMap` to merge provider results is modelled.
- `src/TextEditorWatcher.ts`, `src/helpers.ts`, `src/main.ts`, `src/EtchStateless.ts`, `src/HtmlStringView.ts` and `src/InfinityProgress.component.tsx` are not part of this model. They are event streams, timers, debouncing, pixel geometry from the editor, runtime type tests, package activation and UI components.
- A provider's `Get$` is an opaque asynchronous call. The model's provider holds an identity and an optional priority only.
- The module-level singleton `HoverProvidersRegistryInstance` (src/HoverProvidersRegistry.ts:17) is not modelled as a global; the class's constructor is.
- ProvidersRegistry.HoverProvidersRegistry.Providers: returns the list as a value. The source returns the live array itself, so a caller holding it sees later registrations; that aliasing is not modelled.
- Priorities are integers. JavaScript's floating-point priorities, and non-numeric `Priority` values, are not modelled.
- `move`'s indices are integers. Fractional or `NaN` indices are not modelled. The thrown message is modelled by the three numbers it reports, not by its text.
- `remove` and `distinct` compare with Dafny equality. `indexOf` never finds `NaN`, so `remove(NaN)` removes nothing and `distinct` drops every `NaN`; that is not modelled.
- `flatMap`'s selector is a pure, total function. A selector that throws, or that changes the receiver, is not modelled.
- `flatMap`'s selector returns an array, `null` or `undefined`. Other falsy results that the type annotations exclude (`0`, `""`, `false`) are not modelled.
- `Array.prototype.sort` is modelled by one stable insertion sort. `StableSortIsUnique` shows that any stable sort gives the same list, so the choice loses nothing.
