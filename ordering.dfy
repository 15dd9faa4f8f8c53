/**
  The LINQ building blocks the service's queries are made of: `Where` on the
  completion flag, `FirstOrDefault` on the id, and `OrderByDescending` on a
  (possibly absent) timestamp.
 */
module Ordering {
  import opened Domain

  /** The two keys the service sorts by. */
  datatype OrderKey = ByCreatedAt | ByCompletedAt

  function KeyOf(o: OrderKey, x: Item): (k: Option<int>) {
    match o
    case ByCreatedAt => Some(x.createdAt)
    case ByCompletedAt => x.completedAt
  }

  /**
    The default comparer of a nullable timestamp: an absent value is below
    every present one, and two absent values are equal.
   */
  function AtMost(a: Option<int>, b: Option<int>): (r: bool)
    ensures a.None? ==> r
    ensures a.Some? && b.None? ==> !r
    ensures a.Some? && b.Some? ==> (r <==> a.value <= b.value)
  {
    a.None? || (b.Some? && a.value <= b.value)
  }

  /** The comparer is a total order: any two values compare, it chains, and it is antisymmetric. */
  lemma AtMostTotalOrder(a: Option<int>, b: Option<int>, c: Option<int>)
    ensures AtMost(a, a)
    ensures AtMost(a, b) || AtMost(b, a)
    ensures AtMost(a, b) && AtMost(b, c) ==> AtMost(a, c)
    ensures AtMost(a, b) && AtMost(b, a) ==> a == b
  {
  }

  /** Non-increasing in the key `o`. */
  predicate SortedDesc(o: OrderKey, s: seq<Item>) {
    forall i, j :: 0 <= i < j < |s| ==> AtMost(KeyOf(o, s[j]), KeyOf(o, s[i]))
  }

  /** No value occurs twice. */
  ghost predicate AtMostOnce(s: seq<Item>) {
    forall x :: multiset(s)[x] <= 1
  }

  /**
    Puts `x` in front of the first element whose key is not above its own, so
    that `x` stays ahead of the elements it ties with.
   */
  function Insert(o: OrderKey, x: Item, s: seq<Item>): (r: seq<Item>)
    requires SortedDesc(o, s)
    ensures multiset(r) == multiset(s) + multiset{x}
    ensures SortedDesc(o, r)
  {
    if s == [] || AtMost(KeyOf(o, s[0]), KeyOf(o, x)) then
      forall j | 0 <= j < |s| ensures AtMost(KeyOf(o, s[j]), KeyOf(o, x)) {
        if 0 < j {
          AtMostTotalOrder(KeyOf(o, s[j]), KeyOf(o, s[0]), KeyOf(o, x));
        }
      }
      ConsSorted(o, x, s);
      [x] + s
    else
      var rest := Insert(o, x, s[1..]);
      assert s == [s[0]] + s[1..];
      HeadBoundsInsert(o, x, s, rest);
      ConsSorted(o, s[0], rest);
      [s[0]] + rest
  }

  /** An element at or above everything in a sorted list can go in front of it. */
  lemma ConsSorted(o: OrderKey, h: Item, s: seq<Item>)
    requires SortedDesc(o, s)
    requires forall j :: 0 <= j < |s| ==> AtMost(KeyOf(o, s[j]), KeyOf(o, h))
    ensures SortedDesc(o, [h] + s)
  {
    var r := [h] + s;
    forall i, j | 0 <= i < j < |r| ensures AtMost(KeyOf(o, r[j]), KeyOf(o, r[i])) {
      assert r[j] == s[j - 1];
      if 0 < i {
        assert r[i] == s[i - 1];
      }
    }
  }

  /** Every element of `Insert(o, x, s[1..])` is at or below the head of `s`. */
  lemma HeadBoundsInsert(o: OrderKey, x: Item, s: seq<Item>, rest: seq<Item>)
    requires s != [] && SortedDesc(o, s) && !AtMost(KeyOf(o, s[0]), KeyOf(o, x))
    requires multiset(rest) == multiset(s[1..]) + multiset{x}
    ensures forall j :: 0 <= j < |rest| ==> AtMost(KeyOf(o, rest[j]), KeyOf(o, s[0]))
  {
    forall j | 0 <= j < |rest| ensures AtMost(KeyOf(o, rest[j]), KeyOf(o, s[0])) {
      assert rest[j] in multiset(rest);
      if rest[j] != x {
        assert rest[j] in multiset(s[1..]);
        var k :| 0 <= k < |s[1..]| && s[1..][k] == rest[j];
        assert s[k + 1] == rest[j];
      }
    }
  }

  /** `OrderByDescending`: an insertion sort on the key `o`. */
  function SortDesc(o: OrderKey, s: seq<Item>): (r: seq<Item>)
    ensures multiset(r) == multiset(s)
    ensures |r| == |s|
    ensures SortedDesc(o, r)
  {
    if s == [] then []
    else
      assert s == [s[0]] + s[1..];
      Insert(o, s[0], SortDesc(o, s[1..]))
  }

  /** `Where(x => x.IsCompleted == completed)`, keeping the order. */
  function Where(s: seq<Item>, completed: bool): (r: seq<Item>)
    ensures forall x :: x in r <==> x in s && x.isCompleted == completed
    ensures multiset(r) <= multiset(s)
  {
    if s == [] then []
    else
      assert s == [s[0]] + s[1..];
      if s[0].isCompleted == completed then [s[0]] + Where(s[1..], completed)
      else Where(s[1..], completed)
  }

  /** The completed and the pending rows of `s` together are `s`, each row once. */
  lemma {:induction false} WherePartition(s: seq<Item>)
    ensures multiset(Where(s, true)) + multiset(Where(s, false)) == multiset(s)
  {
    if s != [] {
      assert s == [s[0]] + s[1..];
      WherePartition(s[1..]);
    }
  }

  /** `FirstOrDefault(x => x.Id == id)`: the first element carrying `id`. */
  function FirstWithId(s: seq<Item>, id: int): (r: Option<Item>)
    ensures r.Some? ==> r.value in s && r.value.id == id
    ensures r.Some? ==> exists i :: 0 <= i < |s| && s[i] == r.value && NoneWithIdBefore(s, id, i)
    ensures r.None? <==> forall i :: 0 <= i < |s| ==> s[i].id != id
  {
    if s == [] then None
    else if s[0].id == id then
      assert NoneWithIdBefore(s, id, 0);
      Some(s[0])
    else
      var r := FirstWithId(s[1..], id);
      assert forall i :: 1 <= i < |s| ==> s[i] == s[1..][i - 1];
      if r.Some? then
        FirstAfterHead(s, id, r.value);
        r
      else
        r
  }

  /** No element before position `i` carries `id`. */
  predicate NoneWithIdBefore(s: seq<Item>, id: int, i: int)
    requires 0 <= i <= |s|
  {
    forall j :: 0 <= j < i ==> s[j].id != id
  }

  /** A first match in the tail of `s` is a first match in `s` when the head does not match. */
  lemma FirstAfterHead(s: seq<Item>, id: int, x: Item)
    requires s != [] && s[0].id != id
    requires exists i :: 0 <= i < |s[1..]| && s[1..][i] == x && NoneWithIdBefore(s[1..], id, i)
    ensures exists i :: 0 <= i < |s| && s[i] == x && NoneWithIdBefore(s, id, i)
  {
    var i :| 0 <= i < |s[1..]| && s[1..][i] == x && NoneWithIdBefore(s[1..], id, i);
    assert s[i + 1] == x;
    forall j | 0 <= j < i + 1 ensures s[j].id != id {
      if 0 < j {
        assert s[j] == s[1..][j - 1];
      }
    }
    assert NoneWithIdBefore(s, id, i + 1);
  }

  /** A rearrangement lists the same elements, and repeats none if the original repeats none. */
  lemma SameElements(r: seq<Item>, s: seq<Item>)
    requires multiset(r) <= multiset(s)
    ensures forall x :: x in r ==> x in s
    ensures AtMostOnce(s) ==> AtMostOnce(r)
  {
    forall x | x in r ensures x in s {
      assert x in multiset(r);
    }
    if AtMostOnce(s) {
      forall x ensures multiset(r)[x] <= 1 {
        assert multiset(r)[x] <= multiset(s)[x];
      }
    }
  }

  /** Sorted by `CreatedAt` means the creation times never increase along the list. */
  lemma NewestFirst(s: seq<Item>)
    requires SortedDesc(ByCreatedAt, s)
    ensures forall i, j :: 0 <= i < j < |s| ==> s[j].createdAt <= s[i].createdAt
  {
    forall i, j | 0 <= i < j < |s| ensures s[j].createdAt <= s[i].createdAt {
      assert AtMost(KeyOf(ByCreatedAt, s[j]), KeyOf(ByCreatedAt, s[i]));
    }
  }
}
