/**
 * The java.util list operations the adapter calls on its raw list:
 * `List.indexOf`, `List.remove(Object)`, `Collections.swap` and `Collections.sort`.
 */
module Lists {

  /** `List.indexOf`: the position of the first element equal to `x`, or -1 when there is none. */
  function IndexOf<M(==)>(s: seq<M>, x: M): (r: int)
    ensures -1 <= r < |s|
    ensures r == -1 <==> x !in s
    ensures 0 <= r ==> s[r] == x && x !in s[..r]
  {
    if |s| == 0 then -1
    else if s[0] == x then 0
    else
      var k := IndexOf(s[1..], x);
      assert s == [s[0]] + s[1..];
      if k == -1 then -1
      else
        assert s[..k + 1] == [s[0]] + s[1..][..k];
        k + 1
  }

  /** The first occurrence of `x` sits at the first position holding `x`. */
  lemma IndexOfFirst<M>(s: seq<M>, p: nat)
    requires p < |s| && s[p] !in s[..p]
    ensures IndexOf(s, s[p]) == p
  {
  }

  /** The pieces of a list split around one element. */
  lemma SplitAround<M>(a: seq<M>, x: M, c: seq<M>, v: M)
    ensures var s := a + [x] + c;
      && s[..|a|] == a && s[|a|] == x && s[|a| + 1..] == c
      && s[|a| := v] == a + [v] + c
      && (a + c)[..|a|] == a && (a + c)[|a|..] == c
  {
    var s := a + [x] + c;
    assert s[|a| := v] == a + [v] + c;
  }

  /** `List.remove(Object)`: deletes the first element equal to `x`, and nothing when there is none. */
  function RemoveFirst<M(==)>(s: seq<M>, x: M): (r: seq<M>)
    ensures x !in s ==> r == s
    ensures |r| == if x in s then |s| - 1 else |s|
  {
    if s == [] then []
    else
      assert s == [s[0]] + s[1..];
      if s[0] == x then s[1..]
      else [s[0]] + RemoveFirst(s[1..], x)
  }

  /** `RemoveFirst` takes away one copy of `x` when there is one, and nothing else. */
  lemma {:induction false} RemoveFirstMultiset<M>(s: seq<M>, x: M)
    ensures multiset(RemoveFirst(s, x)) == multiset(s) - multiset{x}
  {
    if s != [] {
      assert s == [s[0]] + s[1..];
      if s[0] != x {
        RemoveFirstMultiset(s[1..], x);
      }
    }
  }

  /**
   * The deleted element is the first copy of `x`, the one `IndexOf` finds;
   * everything around it is kept in order.
   */
  lemma {:induction false} RemoveFirstAt<M>(s: seq<M>, x: M, p: nat)
    requires p < |s| && s[p] == x && x !in s[..p]
    ensures RemoveFirst(s, x) == s[..p] + s[p + 1..]
  {
    if p > 0 {
      var t := s[1..];
      assert s[0] != x by {
        assert s[..p][0] == s[0];
      }
      assert x !in t[..p - 1] by {
        assert t[..p - 1] == s[..p][1..];
      }
      RemoveFirstAt(t, x, p - 1);
      assert RemoveFirst(s, x) == [s[0]] + RemoveFirst(t, x);
      assert s[..p] == [s[0]] + t[..p - 1] && s[p + 1..] == t[p..];
    }
  }

  /** `RemoveFirst` deletes exactly the position `IndexOf` reports. */
  lemma RemoveFirstIndexOf<M>(s: seq<M>, x: M)
    ensures x in s ==>
      var p := IndexOf(s, x);
      0 <= p && RemoveFirst(s, x) == s[..p] + s[p + 1..]
  {
    if x in s {
      RemoveFirstAt(s, x, IndexOf(s, x));
    }
  }

  /** `Collections.swap`: exchanges the elements at positions `i` and `j`. */
  function Swap<M>(s: seq<M>, i: nat, j: nat): (r: seq<M>)
    requires i < |s| && j < |s|
    ensures |r| == |s| && r[i] == s[j] && r[j] == s[i]
    ensures forall k :: 0 <= k < |s| && k != i && k != j ==> r[k] == s[k]
    ensures multiset(r) == multiset(s)
  {
    s[i := s[j]][j := s[i]]
  }

  /** Swapping two equal elements changes nothing. */
  lemma SwapEqual<M>(s: seq<M>, i: nat, j: nat)
    requires i < |s| && j < |s| && s[i] == s[j]
    ensures Swap(s, i, j) == s
  {
    var r := Swap(s, i, j);
    assert forall k :: 0 <= k < |s| ==> r[k] == s[k];
  }

  /** Any two elements can be placed in some order: `cmp(a, b) <= 0` ("a may precede b") or the converse. */
  ghost predicate Total<M(!new)>(cmp: (M, M) -> int) {
    forall a, b :: cmp(a, b) <= 0 || cmp(b, a) <= 0
  }

  /** "May precede" is transitive. */
  ghost predicate Transitive<M(!new)>(cmp: (M, M) -> int) {
    forall a, b, c :: cmp(a, b) <= 0 && cmp(b, c) <= 0 ==> cmp(a, c) <= 0
  }

  /** What `Collections.sort` demands of a `Comparator`. */
  ghost predicate IsComparator<M(!new)>(cmp: (M, M) -> int) {
    Total(cmp) && Transitive(cmp)
  }

  /** Each element may precede its successor. */
  ghost predicate Ordered<M>(s: seq<M>, cmp: (M, M) -> int) {
    forall i, j :: 0 <= i && j == i + 1 && j < |s| ==> cmp(s[i], s[j]) <= 0
  }

  /** Every element may precede every later one. */
  ghost predicate Sorted<M>(s: seq<M>, cmp: (M, M) -> int) {
    forall i, j :: 0 <= i < j < |s| ==> cmp(s[i], s[j]) <= 0
  }

  /** For a transitive comparator, ordering neighbours orders the whole list. */
  lemma {:induction false} OrderedIsSorted<M(!new)>(s: seq<M>, cmp: (M, M) -> int)
    requires Transitive(cmp) && Ordered(s, cmp)
    ensures Sorted(s, cmp)
  {
    if |s| > 1 {
      var t := s[1..];
      TailOrdered(s, cmp);
      OrderedIsSorted(t, cmp);
      forall i, j | 0 <= i < j < |s| ensures cmp(s[i], s[j]) <= 0 {
        if i > 0 {
          assert s[i] == t[i - 1] && s[j] == t[j - 1];
        } else if j > 1 {
          assert cmp(s[0], s[1]) <= 0 && cmp(s[1], s[j]) <= 0;
        }
      }
    }
  }

  /** An ordered list stays ordered with a new head that may precede the old one. */
  lemma ConsOrdered<M>(h: M, t: seq<M>, cmp: (M, M) -> int)
    requires Ordered(t, cmp) && (t != [] ==> cmp(h, t[0]) <= 0)
    ensures Ordered([h] + t, cmp)
  {
    var r := [h] + t;
    forall i, j | 0 <= i && j == i + 1 && j < |r| ensures cmp(r[i], r[j]) <= 0 {
      if i > 0 {
        assert r[i] == t[i - 1] && r[j] == t[i];
      }
    }
  }

  /** The tail of an ordered list is ordered. */
  lemma TailOrdered<M>(s: seq<M>, cmp: (M, M) -> int)
    requires s != [] && Ordered(s, cmp)
    ensures Ordered(s[1..], cmp)
  {
    var t := s[1..];
    forall i, j | 0 <= i && j == i + 1 && j < |t| ensures cmp(t[i], t[j]) <= 0 {
      assert t[i] == s[i + 1] && t[j] == s[i + 2];
    }
  }

  /**
   * Inserts `x` in front of the first element it may precede: one more copy of
   * `x`, and the result starts with `x` or with the old first element.
   */
  function Insert<M>(x: M, s: seq<M>, cmp: (M, M) -> int): (r: seq<M>)
    ensures |r| == |s| + 1
    ensures multiset(r) == multiset(s) + multiset{x}
    ensures r[0] == x || (s != [] && r[0] == s[0])
  {
    if s == [] then [x]
    else if cmp(x, s[0]) <= 0 then [x] + s
    else
      assert s == [s[0]] + s[1..];
      [s[0]] + Insert(x, s[1..], cmp)
  }

  /** Inserting into an ordered list keeps it ordered. */
  lemma {:induction false} InsertOrdered<M(!new)>(x: M, s: seq<M>, cmp: (M, M) -> int)
    requires Total(cmp) && Ordered(s, cmp)
    ensures Ordered(Insert(x, s, cmp), cmp)
  {
    if s == [] {
    } else if cmp(x, s[0]) <= 0 {
      ConsOrdered(x, s, cmp);
    } else {
      TailOrdered(s, cmp);
      InsertOrdered(x, s[1..], cmp);
      var t := Insert(x, s[1..], cmp);
      assert cmp(s[0], x) <= 0;
      ConsOrdered(s[0], t, cmp);
    }
  }

  /**
   * A model of `Collections.sort(list, cmp)`: a stable insertion sort whose result
   * has each element ordered before its successor and holds the same elements as `s`.
   */
  function SortBy<M(!new)>(s: seq<M>, cmp: (M, M) -> int): (r: seq<M>)
    requires Total(cmp)
    ensures Ordered(r, cmp)
    ensures multiset(r) == multiset(s)
  {
    if s == [] then []
    else
      var t := SortBy(s[1..], cmp);
      assert s == [s[0]] + s[1..];
      InsertOrdered(s[0], t, cmp);
      Insert(s[0], t, cmp)
  }
}
