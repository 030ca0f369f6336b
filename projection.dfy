/**
 * The filtered view that BetterRecyclerAdapter derives from its raw list: the
 * value `applyFilter` computes, and what it means.
 */
module Projection {
  import opened JavaLang
  import opened Lists

  /** The adapter's text constraint, a nullable `CharSequence`. */
  type Query = Nullable<string>

  /** `BetterRecyclerAdapter.Filter`: whether an item is shown under a query (which may be null). */
  type Filter<!M> = (M, Query) -> bool

  /**
   * Whether `x` belongs to the view: with no filter every item does; otherwise the
   * filter decides, and it is consulted even when the query is null.
   */
  predicate Shows<M(!new)>(filter: Nullable<Filter<M>>, query: Query, x: M) {
    filter.Null? || filter.value(x, query)
  }

  /** The view `applyFilter` builds from the raw list `s`. */
  function Project<M(!new)>(s: seq<M>, filter: Nullable<Filter<M>>, query: Query): (r: seq<M>)
    ensures |r| <= |s|
  {
    if s == [] then []
    else
      (if Shows(filter, query, s[0]) then [s[0]] else []) + Project(s[1..], filter, query)
  }

  /**
   * The view keeps every copy of each shown item and no copy of a hidden one, so
   * an item is in the view exactly when it is in the raw list and shown.
   */
  lemma {:induction false} ProjectContents<M(!new)>(s: seq<M>, filter: Nullable<Filter<M>>, query: Query)
    ensures forall x :: multiset(Project(s, filter, query))[x] == if Shows(filter, query, x) then multiset(s)[x] else 0
    ensures forall x :: x in Project(s, filter, query) <==> x in s && Shows(filter, query, x)
  {
    if s != [] {
      ProjectContents(s[1..], filter, query);
      assert s == [s[0]] + s[1..];
    }
  }

  /** The view of a concatenation is the concatenation of the views. */
  lemma {:induction false} ProjectAppend<M(!new)>(a: seq<M>, b: seq<M>, filter: Nullable<Filter<M>>, query: Query)
    ensures Project(a + b, filter, query) == Project(a, filter, query) + Project(b, filter, query)
  {
    if a == [] {
      assert a + b == b;
    } else {
      var head := if Shows(filter, query, a[0]) then [a[0]] else [];
      assert (a + b)[0] == a[0] && (a + b)[1..] == a[1..] + b;
      assert Project(a + b, filter, query) == head + Project(a[1..] + b, filter, query);
      ProjectAppend(a[1..], b, filter, query);
    }
  }

  /** The view of a one-item list. */
  lemma ProjectSingle<M(!new)>(x: M, filter: Nullable<Filter<M>>, query: Query)
    ensures Project([x], filter, query) == if Shows(filter, query, x) then [x] else []
  {
    assert [x][1..] == [];
  }

  /** The view of `s` seen around position `i`. */
  lemma ProjectSplit<M(!new)>(s: seq<M>, i: nat, filter: Nullable<Filter<M>>, query: Query)
    requires i < |s|
    ensures Project(s, filter, query)
         == Project(s[..i], filter, query)
            + (if Shows(filter, query, s[i]) then [s[i]] else [])
            + Project(s[i + 1..], filter, query)
  {
    var pre, post := s[..i], s[i + 1..];
    assert s == pre + [s[i]] + post;
    ProjectSingle(s[i], filter, query);
    ProjectAppend(pre + [s[i]], post, filter, query);
    ProjectAppend(pre, [s[i]], filter, query);
  }

  /**
   * Inserting `x` at raw position `i` inserts it into the view after the
   * `|Project(s[..i])|` shown items that precede `i`, if it is shown at all.
   */
  lemma ProjectInsert<M(!new)>(s: seq<M>, i: nat, x: M, filter: Nullable<Filter<M>>, query: Query)
    requires i <= |s|
    ensures var v, k := Project(s, filter, query), |Project(s[..i], filter, query)|;
      && k <= |v|
      && Project(s[..i] + [x] + s[i..], filter, query)
         == v[..k] + (if Shows(filter, query, x) then [x] else []) + v[k..]
  {
    var pre, post := s[..i], s[i..];
    var a, c := Project(pre, filter, query), Project(post, filter, query);
    assert s == pre + post;
    ProjectAppend(pre, post, filter, query);
    ProjectAppend(pre + [x], post, filter, query);
    ProjectAppend(pre, [x], filter, query);
    ProjectSingle(x, filter, query);
    SplitAround(a, x, c, x);
  }

  /**
   * Deleting raw position `i` deletes the matching entry of the view when that
   * item was shown, and leaves the view alone otherwise.
   */
  lemma ProjectRemove<M(!new)>(s: seq<M>, i: nat, filter: Nullable<Filter<M>>, query: Query)
    requires i < |s|
    ensures var v, k := Project(s, filter, query), |Project(s[..i], filter, query)|;
      && (Shows(filter, query, s[i]) ==> k < |v|)
      && Project(s[..i] + s[i + 1..], filter, query)
         == if Shows(filter, query, s[i]) then v[..k] + v[k + 1..] else v
  {
    var pre, post := s[..i], s[i + 1..];
    var a, c := Project(pre, filter, query), Project(post, filter, query);
    var v := Project(s, filter, query);
    assert v == a + (if Shows(filter, query, s[i]) then [s[i]] else []) + c by {
      ProjectSplit(s, i, filter, query);
    }
    assert Project(pre + post, filter, query) == a + c by {
      ProjectAppend(pre, post, filter, query);
    }
    SplitAround(a, s[i], c, s[i]);
  }

  /** Without a filter the view is a copy of the raw list, whatever the query. */
  lemma {:induction false} ProjectNoFilter<M(!new)>(s: seq<M>, query: Query)
    ensures Project(s, Null, query) == s
  {
    if s != [] {
      ProjectNoFilter(s[1..], query);
    }
  }

  /** When every item is shown the view is the raw list; when one is hidden the view is shorter. */
  lemma {:induction false} ProjectShrinks<M(!new)>(s: seq<M>, filter: Nullable<Filter<M>>, query: Query)
    ensures Project(s, filter, query) == s <==> forall k :: 0 <= k < |s| ==> Shows(filter, query, s[k])
    ensures |Project(s, filter, query)| < |s| <==> exists k :: 0 <= k < |s| && !Shows(filter, query, s[k])
  {
    if s != [] {
      ProjectShrinks(s[1..], filter, query);
      assert forall k :: 1 <= k < |s| ==> s[k] == s[1..][k - 1];
      if !Shows(filter, query, s[0]) {
        assert Project(s, filter, query) != s;
      }
    }
  }

  /** Strictly increasing positions. */
  ghost predicate Increasing(pos: seq<nat>) {
    forall k, l :: 0 <= k < l < |pos| ==> pos[k] < pos[l]
  }

  /** The raw positions, counted from `from`, of the shown items of `s`, in order. */
  ghost function Positions<M(!new)>(s: seq<M>, from: nat, filter: Nullable<Filter<M>>, query: Query): seq<nat> {
    if s == [] then []
    else (if Shows(filter, query, s[0]) then [from] else []) + Positions(s[1..], from + 1, filter, query)
  }

  /** The `k`-th listed position holds the `k`-th entry of the view. */
  lemma {:induction false} PositionsAt<M(!new)>(s: seq<M>, from: nat, k: nat, filter: Nullable<Filter<M>>, query: Query)
    requires k < |Positions(s, from, filter, query)|
    ensures from <= Positions(s, from, filter, query)[k] < from + |s|
    ensures k < |Project(s, filter, query)|
    ensures Project(s, filter, query)[k] == s[Positions(s, from, filter, query)[k] - from]
  {
    var rest, w := Positions(s[1..], from + 1, filter, query), Project(s[1..], filter, query);
    if Shows(filter, query, s[0]) {
      if k > 0 {
        PositionsAt(s[1..], from + 1, k - 1, filter, query);
        assert s[1..][rest[k - 1] - (from + 1)] == s[rest[k - 1] - from];
      }
    } else {
      PositionsAt(s[1..], from + 1, k, filter, query);
      assert s[1..][rest[k] - (from + 1)] == s[rest[k] - from];
    }
  }

  /** One position per entry of the view. */
  lemma {:induction false} PositionsLength<M(!new)>(s: seq<M>, from: nat, filter: Nullable<Filter<M>>, query: Query)
    ensures |Positions(s, from, filter, query)| == |Project(s, filter, query)|
  {
    if s != [] {
      PositionsLength(s[1..], from + 1, filter, query);
    }
  }

  /** The listed positions increase. */
  lemma {:induction false} PositionsOrder<M(!new)>(s: seq<M>, from: nat, k: nat, l: nat, filter: Nullable<Filter<M>>, query: Query)
    requires k < l < |Positions(s, from, filter, query)|
    ensures Positions(s, from, filter, query)[k] < Positions(s, from, filter, query)[l]
  {
    if Shows(filter, query, s[0]) {
      if k > 0 {
        PositionsOrder(s[1..], from + 1, k - 1, l - 1, filter, query);
      } else {
        PositionsAt(s[1..], from + 1, l - 1, filter, query);
      }
    } else {
      PositionsOrder(s[1..], from + 1, k, l, filter, query);
    }
  }

  /** A raw position is listed exactly when its item is shown. */
  lemma {:induction false} PositionsMember<M(!new)>(s: seq<M>, from: nat, j: nat, filter: Nullable<Filter<M>>, query: Query)
    requires j < |s|
    ensures from + j in Positions(s, from, filter, query) <==> Shows(filter, query, s[j])
  {
    var rest := Positions(s[1..], from + 1, filter, query);
    var head := if Shows(filter, query, s[0]) then [from] else [];
    assert Positions(s, from, filter, query) == head + rest;
    assert from + j in head + rest <==> from + j in head || from + j in rest;
    if j == 0 {
      if from in rest {
        var k :| 0 <= k < |rest| && rest[k] == from;
        PositionsAt(s[1..], from + 1, k, filter, query);
      }
    } else {
      PositionsMember(s[1..], from + 1, j - 1, filter, query);
      assert from + 1 + (j - 1) == from + j;
      assert s[1..][j - 1] == s[j];
    }
  }

  /**
   * The view is exactly the subsequence of `s` made of the shown items: `pos` lists,
   * in increasing order, the raw positions the view's entries come from, and a raw
   * position is listed exactly when its item is shown.
   */
  lemma ProjectPositions<M(!new)>(s: seq<M>, filter: Nullable<Filter<M>>, query: Query)
    returns (pos: seq<nat>)
    ensures |pos| == |Project(s, filter, query)|
    ensures forall k :: 0 <= k < |pos| ==> pos[k] < |s| && Project(s, filter, query)[k] == s[pos[k]]
    ensures Increasing(pos)
    ensures forall j :: 0 <= j < |s| ==> (j in pos <==> Shows(filter, query, s[j]))
  {
    pos := Positions(s, 0, filter, query);
    PositionsLength(s, 0, filter, query);
    forall k | 0 <= k < |pos| ensures pos[k] < |s| && Project(s, filter, query)[k] == s[pos[k]] {
      PositionsAt(s, 0, k, filter, query);
    }
    forall k, l | 0 <= k < l < |pos| ensures pos[k] < pos[l] {
      PositionsOrder(s, 0, k, l, filter, query);
    }
    forall j | 0 <= j < |s| ensures j in pos <==> Shows(filter, query, s[j]) {
      PositionsMember(s, 0, j, filter, query);
    }
  }

  /**
   * Replacing a shown item by another shown item replaces the matching entry of the
   * view, the one after the `|Project(s[..i])|` shown items that precede it.
   */
  lemma ProjectUpdate<M(!new)>(s: seq<M>, i: nat, v: M, filter: Nullable<Filter<M>>, query: Query)
    requires i < |s| && Shows(filter, query, s[i]) && Shows(filter, query, v)
    ensures |Project(s[..i], filter, query)| < |Project(s, filter, query)|
    ensures Project(s, filter, query)[|Project(s[..i], filter, query)|] == s[i]
    ensures Project(s[i := v], filter, query)
         == Project(s, filter, query)[|Project(s[..i], filter, query)| := v]
  {
    var t := s[i := v];
    assert t[..i] == s[..i] && t[i + 1..] == s[i + 1..];
    ProjectSplit(s, i, filter, query);
    ProjectSplit(t, i, filter, query);
    var a, c := Project(s[..i], filter, query), Project(s[i + 1..], filter, query);
    SplitAround(a, s[i], c, v);
  }

  /**
   * `List.remove(Object)` commutes with the projection: deleting the first raw
   * copy of a shown item deletes its first copy in the view, and deleting a
   * hidden item (or one that is absent) leaves the view alone.
   */
  lemma {:induction false} ProjectRemoveFirst<M(!new)>(s: seq<M>, x: M, filter: Nullable<Filter<M>>, query: Query)
    ensures Project(RemoveFirst(s, x), filter, query)
         == if Shows(filter, query, x) then RemoveFirst(Project(s, filter, query), x) else Project(s, filter, query)
  {
    if s != [] {
      var v, w := Project(s, filter, query), Project(s[1..], filter, query);
      var shown := Shows(filter, query, s[0]);
      assert v == if shown then [s[0]] + w else w;
      if s[0] == x {
        assert RemoveFirst(s, x) == s[1..];
        if shown {
          assert RemoveFirst(v, x) == w by {
            assert v[0] == x && v[1..] == w;
          }
        }
      } else {
        var t := RemoveFirst(s[1..], x);
        assert RemoveFirst(s, x) == [s[0]] + t;
        ProjectRemoveFirst(s[1..], x, filter, query);
        var u := Project(t, filter, query);
        assert Project([s[0]] + t, filter, query) == if shown then [s[0]] + u else u by {
          assert ([s[0]] + t)[0] == s[0] && ([s[0]] + t)[1..] == t;
        }
        if shown && Shows(filter, query, x) {
          assert RemoveFirst(v, x) == [s[0]] + RemoveFirst(w, x) by {
            assert v[0] == s[0] && v[1..] == w;
          }
        }
      }
    }
  }

  /**
   * Replacing raw position `i` by `x`, whatever either item's visibility: the
   * view keeps the entries before and after the matching position, drops the
   * old entry if it was shown and gains `x` there if `x` is shown.
   */
  lemma ProjectReplace<M(!new)>(s: seq<M>, i: nat, x: M, filter: Nullable<Filter<M>>, query: Query)
    requires i < |s|
    ensures var v, k := Project(s, filter, query), |Project(s[..i], filter, query)|;
      var d := if Shows(filter, query, s[i]) then 1 else 0;
      && k + d <= |v|
      && Project(s[i := x], filter, query)
         == v[..k] + (if Shows(filter, query, x) then [x] else []) + v[k + d..]
  {
    var t := s[i := x];
    assert t[..i] == s[..i] && t[i + 1..] == s[i + 1..];
    ProjectSplit(s, i, filter, query);
    ProjectSplit(t, i, filter, query);
    var a, c := Project(s[..i], filter, query), Project(s[i + 1..], filter, query);
    SplitAround(a, s[i], c, s[i]);
    var v := Project(s, filter, query);
    if Shows(filter, query, s[i]) {
      assert v == a + [s[i]] + c;
    } else {
      assert v == a + c;
    }
  }

  /** A view of a sorted list is sorted: filtering never reorders. */
  lemma ProjectSorted<M(!new)>(s: seq<M>, cmp: (M, M) -> int, filter: Nullable<Filter<M>>, query: Query)
    requires Sorted(s, cmp)
    ensures Sorted(Project(s, filter, query), cmp)
  {
    var v := Project(s, filter, query);
    var pos := ProjectPositions(s, filter, query);
    forall i, j | 0 <= i < j < |v| ensures cmp(v[i], v[j]) <= 0 {
      assert pos[i] < pos[j];
    }
  }

  /** Permuting the raw list permutes the view. */
  lemma ProjectPermutation<M(!new)>(s: seq<M>, t: seq<M>, filter: Nullable<Filter<M>>, query: Query)
    requires multiset(s) == multiset(t)
    ensures multiset(Project(s, filter, query)) == multiset(Project(t, filter, query))
  {
    ProjectContents(s, filter, query);
    ProjectContents(t, filter, query);
    assert forall x :: multiset(Project(s, filter, query))[x] == multiset(Project(t, filter, query))[x];
  }

  /** Exchanging two shown items exchanges the matching entries of the view. */
  lemma ProjectSwap<M(!new)>(s: seq<M>, i: nat, j: nat, filter: Nullable<Filter<M>>, query: Query)
    requires i < |s| && j < |s| && Shows(filter, query, s[i]) && Shows(filter, query, s[j])
    ensures |Project(s[..i], filter, query)| < |Project(s, filter, query)|
    ensures |Project(s[..j], filter, query)| < |Project(s, filter, query)|
    ensures Project(Swap(s, i, j), filter, query)
         == Swap(Project(s, filter, query), |Project(s[..i], filter, query)|, |Project(s[..j], filter, query)|)
  {
    var t := s[i := s[j]];
    var ki, kj := |Project(s[..i], filter, query)|, |Project(s[..j], filter, query)|;
    ProjectUpdate(s, i, s[j], filter, query);
    ProjectUpdate(s, j, s[i], filter, query);
    ProjectUpdate(t, j, s[i], filter, query);
    if i < j {
      assert t[..j] == s[..j][i := s[j]];
      ProjectUpdate(s[..j], i, s[j], filter, query);
    } else {
      assert t[..j] == s[..j];
    }
    assert |Project(t[..j], filter, query)| == kj;
    assert Swap(s, i, j) == t[j := s[i]];
  }

  /** The first occurrence of a shown item in the view lines up with its first occurrence in the raw list. */
  lemma ProjectIndexOf<M(!new)>(s: seq<M>, x: M, filter: Nullable<Filter<M>>, query: Query)
    requires x in s && Shows(filter, query, x)
    ensures IndexOf(Project(s, filter, query), x) == |Project(s[..IndexOf(s, x)], filter, query)|
  {
    var p := IndexOf(s, x);
    var b, c := s[..p], s[p + 1..];
    ProjectSplit(s, p, filter, query);
    ProjectContents(b, filter, query);
    var a := Project(b, filter, query);
    var v := Project(s, filter, query);
    assert v == a + [x] + Project(c, filter, query);
    assert v[|a|] == x && v[..|a|] == a;
    IndexOfFirst(v, |a|);
  }

  /**
   * The effect of `moveItem(a, b)` on the view: the raw list has the first
   * occurrences of `v[a]` and `v[b]` exchanged, and the view has the first
   * occurrences of those two values exchanged. Equal values leave everything as it
   * was; when `a` and `b` are themselves first occurrences, the view has exactly
   * positions `a` and `b` exchanged.
   */
  lemma MoveInView<M(!new)>(s: seq<M>, a: nat, b: nat, filter: Nullable<Filter<M>>, query: Query)
    requires a < |Project(s, filter, query)| && b < |Project(s, filter, query)|
    ensures var v := Project(s, filter, query);
      && 0 <= IndexOf(s, v[a]) && 0 <= IndexOf(s, v[b])
      && 0 <= IndexOf(v, v[a]) && 0 <= IndexOf(v, v[b])
      && Project(Swap(s, IndexOf(s, v[a]), IndexOf(s, v[b])), filter, query)
         == Swap(v, IndexOf(v, v[a]), IndexOf(v, v[b]))
      && (v[a] == v[b] ==> Swap(s, IndexOf(s, v[a]), IndexOf(s, v[b])) == s)
      && (v[a] !in v[..a] && v[b] !in v[..b] ==> Swap(v, IndexOf(v, v[a]), IndexOf(v, v[b])) == Swap(v, a, b))
  {
    var v := Project(s, filter, query);
    var x, y := v[a], v[b];
    ProjectContents(s, filter, query);
    assert x in v && y in v;
    var i, j := IndexOf(s, x), IndexOf(s, y);
    ProjectSwap(s, i, j, filter, query);
    ProjectIndexOf(s, x, filter, query);
    ProjectIndexOf(s, y, filter, query);
    if x == y {
      SwapEqual(s, i, j);
    }
    if x !in v[..a] && y !in v[..b] {
      IndexOfFirst(v, a);
      IndexOfFirst(v, b);
    }
  }

  /** The raw-list half of `MoveDuplicateExample`: where `indexOf` lands and what the swap gives. */
  lemma MoveDuplicateRaw()
    ensures var s := [0, 1, 0];
      && IndexOf(s, s[2]) == 0 && IndexOf(s, s[1]) == 1
      && Swap(s, 0, 1) == [1, 0, 0] && Swap(s, 2, 1) == [0, 0, 1]
  {
    var s := [0, 1, 0];
    assert s[1..] == [1, 0];
  }

  /**
   * With equal items in the view the move can land elsewhere: with no filter the
   * view of `[0, 1, 0]` is the list itself, and moving view position 2 onto view
   * position 1 exchanges raw positions 0 and 1 instead, so the rebuilt view is
   * `[1, 0, 0]` rather than `[0, 0, 1]`.
   */
  lemma MoveDuplicateExample()
    ensures var s := [0, 1, 0];
      var v := Project(s, Null, Null);
      && v == s
      && IndexOf(s, v[2]) == 0 && IndexOf(s, v[1]) == 1
      && Project(Swap(s, IndexOf(s, v[2]), IndexOf(s, v[1])), Null, Null) == [1, 0, 0]
      && Swap(v, 2, 1) == [0, 0, 1]
  {
    var s := [0, 1, 0];
    MoveDuplicateRaw();
    ProjectNoFilter(s, Null);
    ProjectNoFilter([1, 0, 0], Null);
  }
}
