/** `sort_dict`: a dictionary's items ordered by value, largest first, by
    Python's stable sort, so that items with equal values keep the order
    they had in the dictionary. The dictionary is modelled as its list of
    (key, value) items in insertion order. */
module Ranking {

  type Item = (string, real)

  /** Items ordered by value, largest first. */
  predicate Descending(items: seq<Item>)
  {
    forall i, j :: 0 <= i < j < |items| ==> items[i].1 >= items[j].1
  }

  /** The items whose value is v, in their order. */
  function WithValue(items: seq<Item>, v: real): (r: seq<Item>)
    ensures |r| <= |items|
  {
    if |items| == 0 then []
    else (if items[0].1 == v then [items[0]] else []) + WithValue(items[1..], v)
  }

  lemma {:induction false} WithValueAppend(a: seq<Item>, b: seq<Item>, v: real)
    ensures WithValue(a + b, v) == WithValue(a, v) + WithValue(b, v)
  {
    if |a| == 0 {
      assert a + b == b;
    } else {
      var head := if a[0].1 == v then [a[0]] else [];
      assert (a + b)[0] == a[0];
      assert (a + b)[1..] == a[1..] + b;
      WithValueAppend(a[1..], b, v);
      calc {
        WithValue(a + b, v);
        head + WithValue(a[1..] + b, v);
        head + (WithValue(a[1..], v) + WithValue(b, v));
        (head + WithValue(a[1..], v)) + WithValue(b, v);
      }
    }
  }

  /** Places x after every item whose value is at least x's: the step of a
      stable descending insertion sort. */
  function Insert(x: Item, sorted: seq<Item>): (r: seq<Item>)
    ensures |r| == |sorted| + 1
    ensures multiset(r) == multiset(sorted) + multiset{x}
  {
    if |sorted| == 0 then [x]
    else if sorted[0].1 >= x.1 then
      assert sorted == [sorted[0]] + sorted[1..];
      [sorted[0]] + Insert(x, sorted[1..])
    else [x] + sorted
  }

  lemma {:induction false} InsertKeepsDescending(x: Item, sorted: seq<Item>)
    requires Descending(sorted)
    ensures Descending(Insert(x, sorted))
  {
    if |sorted| > 0 && sorted[0].1 >= x.1 {
      var rest := sorted[1..];
      InsertKeepsDescending(x, rest);
      var r := Insert(x, sorted);
      assert r == [sorted[0]] + Insert(x, rest);
      forall j | 0 < j < |r|
        ensures r[0].1 >= r[j].1
      {
        assert r[j] in Insert(x, rest);
        assert r[j] in multiset(Insert(x, rest));
        assert r[j] == x || r[j] in multiset(rest);
        if r[j] != x {
          var k :| 0 <= k < |rest| && rest[k] == r[j];
          assert sorted[k + 1] == r[j];
        }
      }
    }
  }

  /** Inserting x adds it after the items of equal value already there. */
  lemma {:induction false} InsertIsStable(x: Item, sorted: seq<Item>, v: real)
    requires Descending(sorted)
    ensures WithValue(Insert(x, sorted), v) == WithValue(sorted, v) + WithValue([x], v)
  {
    if |sorted| == 0 {
      assert Insert(x, sorted) == [x];
    } else if sorted[0].1 >= x.1 {
      var rest := sorted[1..];
      InsertIsStable(x, rest, v);
      InsertBehind(x, sorted, v);
    } else {
      InsertInFront(x, sorted, v);
    }
  }

  /** x goes behind the first item: stability carries over from the rest. */
  lemma InsertBehind(x: Item, sorted: seq<Item>, v: real)
    requires |sorted| > 0 && sorted[0].1 >= x.1
    requires WithValue(Insert(x, sorted[1..]), v) == WithValue(sorted[1..], v) + WithValue([x], v)
    ensures WithValue(Insert(x, sorted), v) == WithValue(sorted, v) + WithValue([x], v)
  {
    assert sorted == [sorted[0]] + sorted[1..];
    PrependKeepsStable(sorted[0], Insert(x, sorted[1..]), sorted[1..], [x], v);
  }

  /** x goes in front of a list whose values are all below its own. */
  lemma InsertInFront(x: Item, sorted: seq<Item>, v: real)
    requires Descending(sorted)
    requires |sorted| > 0 && sorted[0].1 < x.1
    ensures WithValue(Insert(x, sorted), v) == WithValue(sorted, v) + WithValue([x], v)
  {
    WithValueAppend([x], sorted, v);
    if x.1 == v {
      NoneAtValue(sorted, v);
    }
  }

  /** Putting the same item in front of both sides keeps the items of each
      value in the same order. */
  lemma PrependKeepsStable(h: Item, s: seq<Item>, t: seq<Item>, u: seq<Item>, v: real)
    requires WithValue(s, v) == WithValue(t, v) + WithValue(u, v)
    ensures WithValue([h] + s, v) == WithValue([h] + t, v) + WithValue(u, v)
  {
    WithValueAppend([h], s, v);
    WithValueAppend([h], t, v);
    assert WithValue([h] + s, v) == WithValue([h], v) + (WithValue(t, v) + WithValue(u, v));
  }

  /** A descending list starting below v holds nothing of value v. */
  lemma {:induction false} NoneAtValue(sorted: seq<Item>, v: real)
    requires Descending(sorted)
    requires |sorted| > 0 ==> sorted[0].1 < v
    ensures WithValue(sorted, v) == []
  {
    if |sorted| > 0 {
      assert sorted[0].1 != v;
      if |sorted| > 1 {
        assert sorted[1].1 <= sorted[0].1;
      }
      NoneAtValue(sorted[1..], v);
    }
  }

  /** `sort_dict(dictionary)`: the items sorted by value, largest first,
      equal values in their original order. */
  function SortDict(items: seq<Item>): (r: seq<Item>)
    ensures |r| == |items|
    ensures multiset(r) == multiset(items)
  {
    if |items| == 0 then []
    else
      var init := items[..|items| - 1];
      assert items == init + [items[|items| - 1]];
      Insert(items[|items| - 1], SortDict(init))
  }

  /** The result is ordered by value, largest first. */
  lemma {:induction false} SortDictDescending(items: seq<Item>)
    ensures Descending(SortDict(items))
  {
    if |items| > 0 {
      SortDictDescending(items[..|items| - 1]);
      InsertKeepsDescending(items[|items| - 1], SortDict(items[..|items| - 1]));
    }
  }

  /** The sort is stable: for every value, the items of that value come out
      in the order they went in. */
  lemma {:induction false} SortDictStable(items: seq<Item>, v: real)
    ensures WithValue(SortDict(items), v) == WithValue(items, v)
  {
    if |items| > 0 {
      var init := items[..|items| - 1];
      var last := items[|items| - 1];
      SortDictStable(init, v);
      SortDictDescending(init);
      InsertIsStable(last, SortDict(init), v);
      assert items == init + [last];
      WithValueAppend(init, [last], v);
    }
  }

  /** Together: the result is a descending permutation of the items that
      keeps items of equal value in their original order. */
  lemma SortDictSpec(items: seq<Item>)
    ensures Descending(SortDict(items))
    ensures multiset(SortDict(items)) == multiset(items)
    ensures forall v :: WithValue(SortDict(items), v) == WithValue(items, v)
  {
    SortDictDescending(items);
    forall v
      ensures WithValue(SortDict(items), v) == WithValue(items, v)
    {
      SortDictStable(items, v);
    }
  }
}
