/**
  The data context's table as the queries see it: its rows enumerated one by
  one, and what the primary key on `Id` guarantees about them.
 */
module DataContext {
  import opened Domain
  import opened Ordering

  /** Every non-empty finite set of integers has a least element. */
  lemma {:induction false} HasLeast(s: set<int>)
    requires s != {}
    ensures exists m :: m in s && forall k :: k in s ==> m <= k
    decreases |s|
  {
    assert exists x :: x in s by {
      if forall x :: x !in s { assert false; }
    }
    var x :| x in s;
    var rest := s - {x};
    if rest != {} {
      HasLeast(rest);
      var m :| m in rest && forall k :: k in rest ==> m <= k;
      var least := if x < m then x else m;
      forall k | k in s ensures least <= k {
        if k != x { assert k in rest; }
      }
      assert least in s;
    } else {
      forall k | k in s ensures x <= k {
        assert k == x || k in rest;
      }
    }
  }

  /** The least element of a non-empty set of keys. */
  function Least(s: set<int>): (m: int)
    requires s != {}
    ensures m in s && forall k :: k in s ==> m <= k
  {
    HasLeast(s);
    var m :| m in s && forall k :: k in s ==> m <= k;
    m
  }

  /** The keys of a table in ascending order. */
  function AscendingKeys(s: set<int>): (ks: seq<int>)
    ensures |ks| == |s|
    ensures forall k :: k in ks <==> k in s
    ensures forall i, j :: 0 <= i < j < |ks| ==> ks[i] < ks[j]
    decreases |s|
  {
    if s == {} then []
    else
      var m := Least(s);
      var rest := AscendingKeys(s - {m});
      assert |s - {m}| == |s| - 1;
      assert forall i :: 0 <= i < |rest| ==> m < rest[i] by {
        forall i | 0 <= i < |rest| ensures m < rest[i] {
          assert rest[i] in s - {m};
        }
      }
      [m] + rest
  }

  /**
    The rows of the table, enumerated in ascending id order. The order in
    which the store enumerates its rows is not fixed by the source; this
    choice only decides the order of items whose sort keys are equal.
   */
  function Rows(t: Table): (r: seq<Item>)
    ensures |r| == |t|
    ensures forall x :: x in r <==> InTable(t, x)
    ensures Keyed(t) ==> AtMostOnce(r)
  {
    var ks := AscendingKeys(t.Keys);
    var r := seq(|ks|, i requires 0 <= i < |ks| => t[ks[i]]);
    RowsOfKeys(t, ks, r);
    r
  }

  /** Looking up ascending keys lists every row of the table once. */
  lemma RowsOfKeys(t: Table, ks: seq<int>, r: seq<Item>)
    requires |ks| == |t.Keys| && forall k :: k in ks <==> k in t
    requires forall i, j :: 0 <= i < j < |ks| ==> ks[i] < ks[j]
    requires |r| == |ks| && forall i :: 0 <= i < |ks| ==> ks[i] in t && r[i] == t[ks[i]]
    ensures |r| == |t|
    ensures forall x :: x in r <==> InTable(t, x)
    ensures Keyed(t) ==> AtMostOnce(r)
  {
    assert |t| == |t.Keys|;
    forall x | InTable(t, x) ensures x in r {
      var k :| k in t && t[k] == x;
      assert k in ks;
      var i :| 0 <= i < |ks| && ks[i] == k;
      assert r[i] == x;
    }
    forall i | 0 <= i < |r| ensures InTable(t, r[i]) {
      assert ks[i] in ks;
      assert ks[i] in t && t[ks[i]] == r[i];
    }
    if Keyed(t) {
      forall i, j | 0 <= i < j < |r| ensures r[i].id < r[j].id {
        assert ks[i] in ks && ks[j] in ks;
      }
      AscendingIdsOnce(r);
    }
  }

  /** A sequence whose ids strictly increase holds no element twice. */
  lemma {:induction false} AscendingIdsOnce(s: seq<Item>)
    requires forall i, j :: 0 <= i < j < |s| ==> s[i].id < s[j].id
    ensures AtMostOnce(s)
  {
    if s != [] {
      assert s == [s[0]] + s[1..];
      AscendingIdsOnce(s[1..]);
      assert s[0] !in s[1..] by {
        forall i | 0 <= i < |s[1..]| ensures s[1..][i] != s[0] {
          assert s[1..][i] == s[i + 1];
        }
      }
      forall x ensures multiset(s)[x] <= 1 {
        assert multiset(s)[x] == multiset{s[0]}[x] + multiset(s[1..])[x];
      }
    }
  }

  /** Two positions holding the same value make it occur at least twice. */
  lemma {:induction false} RepeatCountsTwice(s: seq<Item>, i: int, j: int)
    requires 0 <= i < j < |s| && s[i] == s[j]
    ensures multiset(s)[s[i]] >= 2
  {
    assert s == s[..j] + [s[j]] + s[j + 1..];
    assert s[i] == s[..j][i];
    assert multiset(s[..j])[s[i]] >= 1;
  }

  /** In a keyed table, a stored item sits under its own id. */
  lemma StoredUnderId(t: Table, x: Item)
    requires Keyed(t) && InTable(t, x)
    ensures x.id in t && t[x.id] == x
  {
    var k :| k in t && t[k] == x;
  }

  /**
    Among rows of a keyed table, occurring at most once means no id is listed
    twice.
   */
  lemma IdsDistinct(t: Table, s: seq<Item>)
    requires Keyed(t) && AtMostOnce(s)
    requires forall x :: x in s ==> InTable(t, x)
    ensures forall i, j :: 0 <= i < j < |s| ==> s[i].id != s[j].id
  {
    forall i, j | 0 <= i < j < |s| ensures s[i].id != s[j].id {
      if s[i].id == s[j].id {
        StoredUnderId(t, s[i]);
        StoredUnderId(t, s[j]);
        RepeatCountsTwice(s, i, j);
        assert false;
      }
    }
  }
}
