/**
 * BetterRecyclerAdapter's list state: the raw list `items`, the derived list
 * `filteredItems` the host displays, and the text `query` the filter is given.
 * Every mutator changes the raw list or the query in place and then rebuilds the
 * derived list, so the object invariant `Valid()` says that the derived list is
 * always the projection of the raw one.
 */
module Adapter {
  import opened JavaLang
  import opened Lists
  import opened Projection

  /** `RecyclerView.NO_ID`, the host library's "no stable id" value. */
  const NO_ID: int := -1

  /**
   * The order `Collections.sort(list, comparator)` uses: the comparator, or the
   * elements' natural ordering (`Comparable.compareTo`) when it is null.
   */
  function SortOrder<M>(comparator: Nullable<(M, M) -> int>, naturalOrder: (M, M) -> int): (M, M) -> int {
    match comparator
    case Null => naturalOrder
    case NonNull(order) => order
  }

  class BetterRecyclerAdapter<T(==,!new)> {
    var items: seq<Nullable<T>>
    var filteredItems: seq<Nullable<T>>
    var query: Query

    /** The filter `getFilter()` supplies; a subclass fixes it, `Null` means none. */
    const itemFilter: Nullable<Filter<Nullable<T>>>

    /** Whether `x` appears in the derived list under the current query. */
    ghost predicate Visible(x: Nullable<T>)
      reads this
    {
      Shows(itemFilter, query, x)
    }

    /** The object invariant: the derived list is the projection of the raw list. */
    ghost predicate Valid()
      reads this
    {
      filteredItems == Project(items, itemFilter, query)
    }

    /** A fresh adapter holds no items and no query. */
    constructor (filter: Nullable<Filter<Nullable<T>>>)
      ensures Valid()
      ensures items == [] && filteredItems == [] && query == Null && itemFilter == filter
    {
      items := [];
      filteredItems := [];
      query := Null;
      itemFilter := filter;
    }

    /**
     * `applyFilter`: empties the derived list and refills it, with a copy of the raw
     * list when there is no filter and otherwise with the items the filter accepts
     * under the query (null or not), in raw order.
     */
    method ApplyFilter()
      modifies this`filteredItems
      ensures Valid() && items == old(items) && query == old(query)
      ensures itemFilter.Null? ==> filteredItems == items
    {
      filteredItems := [];
      match itemFilter
      case Null =>
        filteredItems := filteredItems + items;
        ProjectNoFilter(items, query);
      case NonNull(accept) =>
        var i := 0;
        while i < |items|
          invariant 0 <= i <= |items|
          invariant filteredItems == Project(items[..i], itemFilter, query)
        {
          var item := items[i];
          if accept(item, query) {
            filteredItems := filteredItems + [item];
          }
          assert items[..i + 1] == items[..i] + [item];
          ProjectAppend(items[..i], [item], itemFilter, query);
          i := i + 1;
        }
        assert items[..i] == items;
    }

    /** `add(obj)`: appends to the raw list; the view gains the item at its end when it is shown. */
    method Add(obj: Nullable<T>)
      requires Valid()
      modifies this
      ensures Valid() && query == old(query)
      ensures items == old(items) + [obj]
      ensures filteredItems == old(filteredItems) + (if Visible(obj) then [obj] else [])
    {
      items := items + [obj];
      ApplyFilter();
      ProjectAppend(old(items), [obj], itemFilter, query);
    }

    /**
     * `add(index, obj)`: inserts at `index`, shifting the later items right; in the
     * view the item lands after the shown items that precede `index`.
     */
    method AddAt(index: int, obj: Nullable<T>)
      requires Valid()
      requires 0 <= index <= |items|
      modifies this
      ensures Valid() && query == old(query)
      ensures items == old(items)[..index] + [obj] + old(items)[index..]
      ensures var k := |Project(old(items)[..index], itemFilter, query)|;
        && k <= |old(filteredItems)|
        && filteredItems == old(filteredItems)[..k] + (if Visible(obj) then [obj] else []) + old(filteredItems)[k..]
    {
      ProjectInsert(items, index, obj, itemFilter, query);
      items := items[..index] + [obj] + items[index..];
      ApplyFilter();
    }

    /** `addAll(collection)`: a null collection changes nothing; otherwise it is appended in order. */
    method AddAll(collection: Nullable<seq<Nullable<T>>>)
      requires Valid()
      modifies this
      ensures Valid() && query == old(query)
      ensures collection.Null? ==> items == old(items) && filteredItems == old(filteredItems)
      ensures collection.NonNull? ==>
        && items == old(items) + collection.value
        && filteredItems == old(filteredItems) + Project(collection.value, itemFilter, query)
    {
      if collection.NonNull? {
        items := items + collection.value;
        ApplyFilter();
        ProjectAppend(old(items), collection.value, itemFilter, query);
      }
    }

    /**
     * `set(index, obj)`: replaces one raw item, keeping the length; the view changes
     * in the matching place only, losing the old item if it was shown and gaining
     * the new one if it is shown.
     */
    method Set(index: int, obj: Nullable<T>)
      requires Valid()
      requires 0 <= index < |items|
      modifies this
      ensures Valid() && query == old(query)
      ensures |items| == |old(items)| && items == old(items)[index := obj]
      ensures var k, d := |Project(old(items)[..index], itemFilter, query)|,
                          if Visible(old(items)[index]) then 1 else 0;
        && k + d <= |old(filteredItems)|
        && filteredItems == old(filteredItems)[..k] + (if Visible(obj) then [obj] else []) + old(filteredItems)[k + d..]
      ensures Visible(old(items)[index]) && Visible(obj) ==>
        var k := |Project(old(items)[..index], itemFilter, query)|;
        k < |old(filteredItems)| && filteredItems == old(filteredItems)[k := obj]
    {
      ProjectReplace(items, index, obj, itemFilter, query);
      if Visible(items[index]) && Visible(obj) {
        ProjectUpdate(items, index, obj, itemFilter, query);
      }
      items := items[index := obj];
      ApplyFilter();
    }

    /** `clear()`: empties both lists and drops the query, without calling applyFilter. */
    method Clear()
      modifies this
      ensures Valid()
      ensures items == [] && filteredItems == [] && query == Null
    {
      items := [];
      filteredItems := [];
      query := Null;
    }

    /**
     * `remove(obj)`: deletes the first raw item equal to `obj`, and nothing
     * when there is none; a shown item also loses its first copy in the view.
     */
    method Remove(obj: Nullable<T>)
      requires Valid()
      modifies this
      ensures Valid() && query == old(query)
      ensures items == RemoveFirst(old(items), obj)
      ensures obj in old(items) ==>
        var p := IndexOf(old(items), obj);
        items == old(items)[..p] + old(items)[p + 1..]
      ensures multiset(items) == multiset(old(items)) - multiset{obj}
      ensures filteredItems == if Visible(obj) then RemoveFirst(old(filteredItems), obj) else old(filteredItems)
    {
      var raw := items;
      RemoveFirstMultiset(raw, obj);
      RemoveFirstIndexOf(raw, obj);
      ProjectRemoveFirst(raw, obj, itemFilter, query);
      items := RemoveFirst(raw, obj);
      ApplyFilter();
    }

    /**
     * `remove(index)`: deletes and returns the raw item at `index`; the view loses
     * the matching entry when that item was shown.
     */
    method RemoveAt(index: int) returns (item: Nullable<T>)
      requires Valid()
      requires 0 <= index < |items|
      modifies this
      ensures Valid() && query == old(query)
      ensures item == old(items)[index]
      ensures items == old(items)[..index] + old(items)[index + 1..]
      ensures var k := |Project(old(items)[..index], itemFilter, query)|;
        && (Visible(item) ==> k < |old(filteredItems)|)
        && filteredItems == if Visible(item)
                         then old(filteredItems)[..k] + old(filteredItems)[k + 1..]
                         else old(filteredItems)
    {
      item := items[index];
      ProjectRemove(items, index, itemFilter, query);
      items := items[..index] + items[index + 1..];
      ApplyFilter();
    }

    /**
     * `moveItem(start, end)`: looks up the raw positions of the two displayed items
     * with `indexOf` (their first occurrences, which always exist and are themselves
     * displayed), swaps those two raw positions and rebuilds the view. The raw
     * positions are returned, as `notifyItemMoved` receives them.
     */
    method MoveItem(start: int, end: int) returns (realStart: int, realEnd: int)
      requires Valid()
      requires 0 <= start < |filteredItems| && 0 <= end < |filteredItems|
      modifies this
      ensures Valid() && query == old(query)
      ensures realStart == IndexOf(old(items), old(filteredItems)[start]) && 0 <= realStart < |old(items)|
      ensures realEnd == IndexOf(old(items), old(filteredItems)[end]) && 0 <= realEnd < |old(items)|
      ensures items == Swap(old(items), realStart, realEnd)
      ensures |items| == |old(items)| && multiset(items) == multiset(old(items))
      ensures old(filteredItems)[start] == old(filteredItems)[end] ==>
        items == old(items) && filteredItems == old(filteredItems)
      ensures filteredItems == Swap(old(filteredItems),
                                    IndexOf(old(filteredItems), old(filteredItems)[start]),
                                    IndexOf(old(filteredItems), old(filteredItems)[end]))
      ensures (old(filteredItems)[start] !in old(filteredItems)[..start] &&
               old(filteredItems)[end] !in old(filteredItems)[..end]) ==>
        filteredItems == Swap(old(filteredItems), start, end)
    {
      MoveInView(items, start, end, itemFilter, query);
      var startItem := filteredItems[start];
      var endItem := filteredItems[end];
      realStart := IndexOf(items, startItem);
      realEnd := IndexOf(items, endItem);
      items := Swap(items, realStart, realEnd);
      ApplyFilter();
    }

    /**
     * `sort(comparator)`: reorders the raw list in place so that it is ordered by the
     * comparator, or by the items' natural ordering when the comparator is null.
     * The view is rebuilt from the sorted list, so it is sorted too.
     */
    method Sort(comparator: Nullable<(Nullable<T>, Nullable<T>) -> int>,
                naturalOrder: (Nullable<T>, Nullable<T>) -> int)
      requires Valid()
      requires IsComparator(SortOrder(comparator, naturalOrder))
      modifies this
      ensures Valid() && query == old(query)
      ensures Sorted(items, SortOrder(comparator, naturalOrder))
      ensures multiset(items) == multiset(old(items))
      ensures Sorted(filteredItems, SortOrder(comparator, naturalOrder))
      ensures multiset(filteredItems) == multiset(old(filteredItems))
    {
      var order := SortOrder(comparator, naturalOrder);
      ProjectPermutation(items, SortBy(items, order), itemFilter, query);
      items := SortBy(items, order);
      OrderedIsSorted(items, order);
      ProjectSorted(items, order, itemFilter, query);
      ApplyFilter();
    }

    /** `filter(constraints)`: installs a new (possibly null) query and rebuilds the view. */
    method Filter(constraints: Query)
      modifies this
      ensures Valid() && items == old(items)
      ensures query == constraints
    {
      query := constraints;
      ApplyFilter();
    }

    /** `clearFilter()`: drops the query; with a filter present, the view is still filtered under the null query. */
    method ClearFilter()
      modifies this
      ensures Valid() && items == old(items)
      ensures query == Null
    {
      query := Null;
      ApplyFilter();
    }

    /** `isFiltered()`: whether a non-empty query is in place. */
    function IsFiltered(): (r: bool)
      reads this
      ensures r <==> query.NonNull? && |query.value| > 0
    {
      match query
      case Null => false
      case NonNull(text) => |text| != 0
    }

    /** `getItem(position)`: the displayed item at `position`, which is a raw item the filter accepts. */
    function GetItem(position: int): (r: Nullable<T>)
      reads this
      requires 0 <= position < |filteredItems|
      ensures r == filteredItems[position]
      ensures Valid() ==> r in items && Visible(r)
    {
      ProjectContents(items, itemFilter, query);
      filteredItems[position]
    }

    /** `getItemCount()`: the number of displayed items, never more than the raw list holds. */
    function GetItemCount(): (r: nat)
      reads this
      ensures r == |filteredItems|
      ensures Valid() ==> r <= |items| && (itemFilter.Null? ==> r == |items|)
    {
      ProjectNoFilter(items, query);
      |filteredItems|
    }

    /**
     * `getItemId(position)`: `NO_ID` outside the displayed range; otherwise the
     * displayed item's hash code, or the position itself for a null item.
     */
    function GetItemId(position: int, hashCode: T -> int32): (id: int)
      reads this
      ensures !(0 <= position < |filteredItems|) ==> id == NO_ID
      ensures 0 <= position < |filteredItems| && filteredItems[position].Null? ==> id == position != NO_ID
      ensures 0 <= position < |filteredItems| && filteredItems[position].NonNull? ==>
        id == hashCode(filteredItems[position].value) as int
    {
      if -1 < position < |filteredItems| then
        match filteredItems[position]
        case NonNull(obj) => hashCode(obj) as int
        case Null => position
      else
        NO_ID
    }
  }
}
