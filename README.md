# BetterRecyclerAdapter list projection, in Dafny

`BetterRecyclerAdapter` is a generic Android `RecyclerView.Adapter` base class.
Its core is a small piece of list state:

- a raw, ordered list of items (`items`);
- a derived list (`filteredItems`), which is the one the host list widget displays;
- an optional text `query`.

Every mutator (`add`, `add(index, …)`, `addAll`, `set`, both `remove`s,
`moveItem`, `sort`) changes the raw list in place. `filter` and
`clearFilter` change only the query. Each of them then calls `applyFilter`,
which rebuilds the derived list. If the subclass supplies no filter
(`getFilter()` returns null), the rebuilt list is a copy of the raw list.
Otherwise it holds, in raw order, the items the filter accepts under the query.
The filter is consulted even when the query is null, so a null query is a
pass-through only when there is no filter. `isFiltered` reports a null or
empty query as "not filtered", but `applyFilter` does not treat such a query
specially: `ProjectShrinks` shows that a filter which rejects an item under the
null query still hides it. `clear` empties both lists and drops the query
directly.

The model is a Dafny class, `Adapter.BetterRecyclerAdapter`, with the three
fields as sequences that its methods reassign. `ApplyFilter` is a loop whose
invariant says that the derived list built so far is the projection of the raw
prefix scanned so far. The object invariant `Valid()` states that
`filteredItems == Project(items, itemFilter, query)`. Every method preserves
it, so the new derived list is always the projection of the new raw list. The
methods that edit the raw list (`Add`, `AddAt`, `AddAll`, `Set`, `Remove`,
`RemoveAt`, `MoveItem`) also state the new derived list in terms of the old
one. `Sort` states that the new derived list is sorted and a permutation of the
old one. `Filter` and `ClearFilter` change the query, so the new derived list
has no fixed relation to the old one; `Valid()` states it in full. The pure
modules hold the specification:

- `Projection`: the projection and its laws.
- `Lists`: `List.indexOf`, `List.remove(Object)`, `Collections.swap` and `Collections.sort`.
- `JavaLang`: nullable references and 32-bit `int`.

Java's null references are modelled explicitly. Items are `Nullable<T>`, and
`getItemId` tests for null. The query, the `addAll` collection and the result
of `getFilter()` are nullable too.

Index arguments that Java would reject with `IndexOutOfBoundsException`
become `requires` clauses. The class never catches those exceptions; they
reach the caller.

`moveItem` maps the two displayed positions back to raw positions with
`indexOf`, which finds the first equal item. The model takes item equality to
be value equality, and the filter to answer the same for equal items. Under
those assumptions that first occurrence is itself displayed.
`MoveItem` and `MoveInView` state the exact effect: the derived list has the
*first occurrences* of the two displayed values exchanged. That is positions
`start` and `end` themselves only when neither value appears earlier in the
derived list. With equal items in the list, a drag can therefore move a
different copy. `MoveDuplicateExample` exhibits this on `[0, 1, 0]`.

## Model

| member | source | states |
|---|---|---|
| Adapter.BetterRecyclerAdapter.constructor | app/src/main/java/ke/co/mauko/jabali/adapter/BetterRecyclerAdapter.java:50-64 | a new adapter has empty raw and derived lists, a null query, and the subclass's filter; the invariant holds |
| Adapter.BetterRecyclerAdapter.ApplyFilter | app/src/main/java/ke/co/mauko/jabali/adapter/BetterRecyclerAdapter.java:356-372 | afterwards the derived list is the projection of the raw list (a plain copy when there is no filter); the raw list and the query are untouched |
| Adapter.BetterRecyclerAdapter.Add | app/src/main/java/ke/co/mauko/jabali/adapter/BetterRecyclerAdapter.java:185-188 | the raw list gains the item at its end; the derived list gains it at its end exactly when the item is shown; the invariant is kept |
| Adapter.BetterRecyclerAdapter.AddAt | app/src/main/java/ke/co/mauko/jabali/adapter/BetterRecyclerAdapter.java:196-199 | for 0 <= index <= size the item is inserted at index with every other item kept in order; in the derived list it lands after the shown items before index, if shown |
| Adapter.BetterRecyclerAdapter.AddAll | app/src/main/java/ke/co/mauko/jabali/adapter/BetterRecyclerAdapter.java:206-211 | a null collection changes nothing; otherwise it is appended to the raw list and its own projection is appended to the derived list |
| Adapter.BetterRecyclerAdapter.Set | app/src/main/java/ke/co/mauko/jabali/adapter/BetterRecyclerAdapter.java:219-222 | for a valid index only that raw position changes and the length is kept; in the derived list the entries before and after the matching position are kept, the old item's entry goes if it was shown and the new item's entry appears if it is shown (a point update when both are shown) |
| Adapter.BetterRecyclerAdapter.Clear | app/src/main/java/ke/co/mauko/jabali/adapter/BetterRecyclerAdapter.java:227-231 | both lists become empty and the query null, which satisfies the invariant without rebuilding |
| Adapter.BetterRecyclerAdapter.Remove | app/src/main/java/ke/co/mauko/jabali/adapter/BetterRecyclerAdapter.java:238-241 | the raw list loses the first item equal to the argument, at the position indexOf reports (one copy fewer in the multiset, nothing when absent); the derived list loses its own first copy when the item is shown and is unchanged otherwise |
| Adapter.BetterRecyclerAdapter.RemoveAt | app/src/main/java/ke/co/mauko/jabali/adapter/BetterRecyclerAdapter.java:249-253 | for a valid index returns the old item there and closes the gap; the derived list loses the matching entry exactly when that item was shown |
| Adapter.BetterRecyclerAdapter.MoveItem | app/src/main/java/ke/co/mauko/jabali/adapter/BetterRecyclerAdapter.java:261-273 | for valid derived positions, the raw positions found by indexOf exist and are returned; only those two raw positions are swapped (length and multiset kept, no-op for equal values); the derived list has the first occurrences of the two values swapped, which is exactly start and end when those are first occurrences |
| Adapter.BetterRecyclerAdapter.Sort | app/src/main/java/ke/co/mauko/jabali/adapter/BetterRecyclerAdapter.java:281-284 | with the given comparator, or the natural ordering when it is null, obeying Java's contract: the raw list becomes a permutation of itself in which every item may precede every later one, and the derived list is likewise sorted and a permutation of the old derived list |
| Adapter.BetterRecyclerAdapter.Filter | app/src/main/java/ke/co/mauko/jabali/adapter/BetterRecyclerAdapter.java:336-340 | the query becomes the argument (null allowed); the raw list is unchanged and the derived list is rebuilt |
| Adapter.BetterRecyclerAdapter.ClearFilter | app/src/main/java/ke/co/mauko/jabali/adapter/BetterRecyclerAdapter.java:347-351 | the query becomes null; the raw list is unchanged and the derived list is rebuilt (still filtered when a filter exists) |
| Adapter.BetterRecyclerAdapter.IsFiltered | app/src/main/java/ke/co/mauko/jabali/adapter/BetterRecyclerAdapter.java:325-327 | true iff the query is non-null and non-empty |
| Adapter.BetterRecyclerAdapter.GetItem | app/src/main/java/ke/co/mauko/jabali/adapter/BetterRecyclerAdapter.java:292-294 | the derived entry at a valid position, which is a raw item the filter accepts |
| Adapter.BetterRecyclerAdapter.GetItemCount | app/src/main/java/ke/co/mauko/jabali/adapter/BetterRecyclerAdapter.java:387-389 | the size of the derived list, never more than the raw size and equal to it without a filter |
| Adapter.BetterRecyclerAdapter.GetItemId | app/src/main/java/ke/co/mauko/jabali/adapter/BetterRecyclerAdapter.java:430-437 | NO_ID outside 0..count-1; otherwise the item's hash code, or the position itself (never NO_ID) for a null item |
| Projection.Project | app/src/main/java/ke/co/mauko/jabali/adapter/BetterRecyclerAdapter.java:356-369 | the derived list is never longer than the raw list |
| Projection.ProjectContents | app/src/main/java/ke/co/mauko/jabali/adapter/BetterRecyclerAdapter.java:363-368 | the view keeps every copy of each shown item and no copy of a hidden one; an item is in the view iff it is in the raw list and shown |
| Projection.ProjectPositions | app/src/main/java/ke/co/mauko/jabali/adapter/BetterRecyclerAdapter.java:363-368 | the view is exactly the subsequence of shown items: strictly increasing raw positions, one per view entry, holding that entry, and listing a raw position iff its item is shown |
| Projection.ProjectNoFilter | app/src/main/java/ke/co/mauko/jabali/adapter/BetterRecyclerAdapter.java:359-361 | with no filter the view equals the raw list whatever the query |
| Projection.ProjectShrinks | app/src/main/java/ke/co/mauko/jabali/adapter/BetterRecyclerAdapter.java:359-368 | the view equals the raw list iff every item is shown, and is strictly shorter iff some item is hidden (so a null query still filters when a filter exists) |
| Projection.ProjectAppend | app/src/main/java/ke/co/mauko/jabali/adapter/BetterRecyclerAdapter.java:185-188 | the view of a concatenation is the concatenation of the views |
| Projection.ProjectInsert | app/src/main/java/ke/co/mauko/jabali/adapter/BetterRecyclerAdapter.java:196-199 | inserting at raw position i inserts into the view after the shown items before i, when shown |
| Projection.ProjectRemove | app/src/main/java/ke/co/mauko/jabali/adapter/BetterRecyclerAdapter.java:249-253 | deleting raw position i deletes the matching view entry when that item was shown, and leaves the view alone otherwise |
| Projection.ProjectReplace | app/src/main/java/ke/co/mauko/jabali/adapter/BetterRecyclerAdapter.java:219-222 | replacing raw position i keeps the view around the matching position, drops the old item's entry if it was shown and adds the new item's if it is shown |
| Projection.ProjectRemoveFirst | app/src/main/java/ke/co/mauko/jabali/adapter/BetterRecyclerAdapter.java:238-241 | removing the first copy of an item from the raw list removes its first copy from the view when it is shown, and leaves the view unchanged otherwise (also when absent) |
| Projection.ProjectSorted | app/src/main/java/ke/co/mauko/jabali/adapter/BetterRecyclerAdapter.java:281-283 | the view of a sorted raw list is sorted: filtering never reorders |
| Projection.ProjectPermutation | app/src/main/java/ke/co/mauko/jabali/adapter/BetterRecyclerAdapter.java:281-283 | permuting the raw list permutes the view |
| Projection.ProjectUpdate | app/src/main/java/ke/co/mauko/jabali/adapter/BetterRecyclerAdapter.java:219-222 | replacing a shown item by a shown item replaces only the matching view entry |
| Projection.ProjectSwap | app/src/main/java/ke/co/mauko/jabali/adapter/BetterRecyclerAdapter.java:268-269 | swapping two shown raw items swaps the matching view entries |
| Projection.ProjectIndexOf | app/src/main/java/ke/co/mauko/jabali/adapter/BetterRecyclerAdapter.java:262-266 | the first occurrence of a shown item in the view lines up with its first occurrence in the raw list |
| Projection.MoveInView | app/src/main/java/ke/co/mauko/jabali/adapter/BetterRecyclerAdapter.java:261-269 | the raw positions indexOf finds exist; the rebuilt view is the old view with the first occurrences of the two moved values swapped; equal values change nothing |
| Projection.MoveDuplicateExample | app/src/main/java/ke/co/mauko/jabali/adapter/BetterRecyclerAdapter.java:262-269 | with no filter the view of [0, 1, 0] is the list itself; moving view position 2 onto 1 swaps raw positions 0 and 1 instead, so the rebuilt view is [1, 0, 0] rather than [0, 0, 1] |
| Lists.IndexOf | app/src/main/java/ke/co/mauko/jabali/adapter/BetterRecyclerAdapter.java:265-266 | List.indexOf: -1 iff absent, otherwise a position holding the item with no earlier copy |
| Lists.Swap | app/src/main/java/ke/co/mauko/jabali/adapter/BetterRecyclerAdapter.java:268 | Collections.swap: the two positions exchange their items, every other position and the multiset are kept |
| Lists.SwapEqual | app/src/main/java/ke/co/mauko/jabali/adapter/BetterRecyclerAdapter.java:268 | swapping two equal items leaves the list unchanged |
| Lists.RemoveFirst | app/src/main/java/ke/co/mauko/jabali/adapter/BetterRecyclerAdapter.java:239 | List.remove(Object): the list is unchanged when the item is absent and one shorter when present |
| Lists.RemoveFirstAt | app/src/main/java/ke/co/mauko/jabali/adapter/BetterRecyclerAdapter.java:239 | the deleted element is the first copy: for a position holding the item with no earlier copy, the result is the list without that position |
| Lists.RemoveFirstIndexOf | app/src/main/java/ke/co/mauko/jabali/adapter/BetterRecyclerAdapter.java:239 | when the item is present, the deleted position is exactly the one indexOf reports |
| Lists.RemoveFirstMultiset | app/src/main/java/ke/co/mauko/jabali/adapter/BetterRecyclerAdapter.java:239 | exactly one copy of the item is taken away when there is one, and nothing else |
| Lists.Insert | app/src/main/java/ke/co/mauko/jabali/adapter/BetterRecyclerAdapter.java:282 | one insertion step: one more copy of the item, length grows by one |
| Lists.InsertOrdered | app/src/main/java/ke/co/mauko/jabali/adapter/BetterRecyclerAdapter.java:282 | inserting into a list ordered by a total comparator keeps it ordered |
| Lists.SortBy | app/src/main/java/ke/co/mauko/jabali/adapter/BetterRecyclerAdapter.java:282 | Collections.sort: the result is ordered by the comparator and is a permutation of the input |
| Lists.OrderedIsSorted | app/src/main/java/ke/co/mauko/jabali/adapter/BetterRecyclerAdapter.java:282 | for a transitive comparator, ordering each neighbour pair orders every pair |

## Left out

- Click and long-click listeners and their dispatch (`onItemClick`, `onItemLongClick`, `onBindViewHolder`): Android view callbacks that only forward an event with the item at a position.
- The empty view (`setEmptyView`, `checkIfEmpty`, the data observer): visibility toggling through the host's observer registry.
- `notifyItemMoved` and `notifyDataSetChanged`: host notifications. `MoveItem` returns the two raw positions that `notifyItemMoved` receives; nothing else is recorded.
- The empty override hooks `onSort`, `onFiltered` and `onItemMoved`: they do nothing in this class.
- `getFilter()` is an overridable method; the model takes its result as a constant fixed at construction (`itemFilter`), so a subclass that returns different filters over time is not covered. The filter itself is a pure function of the item and the query.
- `Object.hashCode()` is a foreign call and becomes the `hashCode` parameter of `GetItemId`. `RecyclerView.NO_ID` is taken as -1, its value in the Android library. The library itself is not part of this model.
- Adapter.BetterRecyclerAdapter.Sort: promises an ordered permutation only. It does not state the stability of Java's merge sort, although `SortBy` happens to be a stable insertion sort. It requires the order in use to be total and transitive, instead of modelling the exception Java may throw for a comparator that breaks its contract. A null comparator selects the elements' natural ordering, which is a parameter (`naturalOrder`) because `Comparable.compareTo` is code outside this model; the `ClassCastException` or `NullPointerException` Java throws for items that are not mutually comparable, or are null, is excluded by the same requirement.
- Item identity: Java's `indexOf` and `remove(Object)` use the items' own `equals()`, and the filter receives the object itself. The model uses value equality for `equals()` and gives the filter the item's value, so it assumes the filter answers the same for items that `equals()` calls equal. A filter that tells apart equal items (one copy hidden, another shown) is not covered; with one, `moveItem` can swap a hidden copy.
- Items and queries changed in place: Java items and the `CharSequence` query are mutable references. If one is changed after `applyFilter`, `filteredItems` goes stale until the next rebuild; the model's values cannot change behind the adapter's back, so that staleness is not represented.
- `getItems` and `getUnfilteredItems` return the live mutable lists. The aliasing this allows (callers mutating the lists behind the adapter's back) is not modelled; the fields themselves are the model's view of both lists.
- `setHasStableIds` and the rest of the `RecyclerView.Adapter` base class.
- List sizes beyond Java's `int` range are not modelled; indices are unbounded integers.
