/** The Python values the core passes around (`str` or `None`), dictionaries with their
    insertion order, and `sorted(d.items())`. */
module Dicts {
  import opened Wrappers

  /** A JSON-compatible scalar as stored in the document records: a `str` or `None`. */
  datatype Value = Str(s: string) | Null

  /** Python truthiness of a value: a non-empty string. */
  predicate Truthy(v: Value)
  {
    v.Str? && v.s != ""
  }

  /** A dictionary as an insertion-ordered sequence of (key, value) items. */
  type Item = (string, Value)
  type Dict = seq<Item>

  predicate DistinctKeys(d: Dict)
  {
    forall i, j :: 0 <= i < j < |d| ==> d[i].0 != d[j].0
  }

  /** Two dictionaries are equal in Python when they hold the same items, in any order. */
  predicate SameItems(d1: Dict, d2: Dict)
  {
    (forall x :: x in d1 ==> x in d2) && (forall x :: x in d2 ==> x in d1)
  }

  /** A non-empty dictionary is its first item followed by the rest. */
  lemma HeadTail(d: Dict)
    requires d != []
    ensures [d[0]] + d[1..] == d
  {
  }

  /** `d.get(key)` on a stored record: `None` when the key is missing. */
  function Get(d: map<string, Value>, key: string): Value
  {
    if key in d then d[key] else Null
  }

  /** `a < b` for Python strings: lexicographic by code point. */
  predicate Below(a: string, b: string)
    decreases |a|
  {
    |b| > 0 && (|a| == 0 || a[0] < b[0] || (a[0] == b[0] && Below(a[1..], b[1..])))
  }

  lemma {:induction false} BelowIrreflexive(a: string)
    ensures !Below(a, a)
    decreases |a|
  {
    if |a| > 0 {
      BelowIrreflexive(a[1..]);
    }
  }

  lemma {:induction false} BelowTransitive(a: string, b: string, c: string)
    requires Below(a, b) && Below(b, c)
    ensures Below(a, c)
    decreases |a|
  {
    if |a| > 0 && a[0] == b[0] && b[0] == c[0] {
      BelowTransitive(a[1..], b[1..], c[1..]);
    }
  }

  lemma {:induction false} BelowTotal(a: string, b: string)
    requires a != b
    ensures Below(a, b) || Below(b, a)
    decreases |a|
  {
    if |a| > 0 && |b| > 0 && a[0] == b[0] {
      assert a == [a[0]] + a[1..] && b == [b[0]] + b[1..];
      BelowTotal(a[1..], b[1..]);
    }
  }

  lemma BelowAsymmetric(a: string, b: string)
    requires Below(a, b)
    ensures !Below(b, a)
  {
    if Below(b, a) {
      BelowTransitive(a, b, a);
      BelowIrreflexive(a);
    }
  }

  predicate StrictlySorted(s: Dict)
  {
    forall i, j :: 0 <= i < j < |s| ==> Below(s[i].0, s[j].0)
  }

  function Insert(x: Item, s: Dict): (r: Dict)
    ensures |r| == |s| + 1
  {
    if s == [] then [x]
    else if Below(x.0, s[0].0) then [x] + s
    else [s[0]] + Insert(x, s[1..])
  }

  /** `sorted(d.items())`: the items in ascending key order (no two items of a dict share a
      key, so Python never compares the values). */
  function SortItems(d: Dict): (r: Dict)
    ensures |r| == |d|
  {
    if d == [] then [] else Insert(d[0], SortItems(d[1..]))
  }

  lemma {:induction false} InsertSorted(x: Item, s: Dict)
    requires StrictlySorted(s)
    requires forall y :: y in s ==> y.0 != x.0
    ensures StrictlySorted(Insert(x, s))
    ensures multiset(Insert(x, s)) == multiset(s) + multiset{x}
  {
    if s == [] {
    } else if Below(x.0, s[0].0) {
      InsertFront(x, s);
    } else {
      BelowTotal(x.0, s[0].0);
      var t := s[1..];
      assert StrictlySorted(t);
      InsertSorted(x, t);
      assert s == [s[0]] + t;
      HeadBelowInsert(x, s);
      ConsSorted(s[0], Insert(x, t));
    }
  }

  lemma InsertFront(x: Item, s: Dict)
    requires StrictlySorted(s) && s != [] && Below(x.0, s[0].0)
    ensures StrictlySorted([x] + s)
  {
    var r := [x] + s;
    forall i, j | 0 <= i < j < |r| ensures Below(r[i].0, r[j].0) {
      if i == 0 && j > 1 {
        BelowTransitive(x.0, s[0].0, s[j - 1].0);
      }
    }
  }

  lemma HeadBelowInsert(x: Item, s: Dict)
    requires StrictlySorted(s) && s != [] && Below(s[0].0, x.0)
    requires multiset(Insert(x, s[1..])) == multiset(s[1..]) + multiset{x}
    ensures forall k :: 0 <= k < |Insert(x, s[1..])| ==> Below(s[0].0, Insert(x, s[1..])[k].0)
  {
    var t := s[1..];
    var it := Insert(x, t);
    forall k | 0 <= k < |it| ensures Below(s[0].0, it[k].0) {
      assert it[k] in multiset(it);
      if it[k] != x {
        assert it[k] in multiset(t);
        var m :| 0 <= m < |t| && t[m] == it[k];
        assert s[m + 1] == t[m];
      }
    }
  }

  lemma ConsSorted(y: Item, s: Dict)
    requires StrictlySorted(s)
    requires forall k :: 0 <= k < |s| ==> Below(y.0, s[k].0)
    ensures StrictlySorted([y] + s)
  {
    var r := [y] + s;
    forall i, j | 0 <= i < j < |r| ensures Below(r[i].0, r[j].0) {
      if i == 0 {
        assert r[j] == s[j - 1];
      } else {
        assert r[i] == s[i - 1] && r[j] == s[j - 1];
      }
    }
  }

  /** `sorted(d.items())` is strictly ascending by key and holds exactly the items of `d`. */
  lemma {:induction false} SortItemsSpec(d: Dict)
    requires DistinctKeys(d)
    ensures StrictlySorted(SortItems(d))
    ensures multiset(SortItems(d)) == multiset(d)
  {
    if d != [] {
      var t := d[1..];
      assert DistinctKeys(t);
      SortItemsSpec(t);
      forall y | y in SortItems(t) ensures y.0 != d[0].0 {
        assert y in multiset(SortItems(t));
        assert y in multiset(t);
        var m :| 0 <= m < |t| && t[m] == y;
        assert d[m + 1] == y;
      }
      InsertSorted(d[0], SortItems(t));
      assert d == [d[0]] + t;
    }
  }

  /** Two strictly sorted item sequences with the same items are the same sequence. */
  lemma {:induction false} SortedUnique(a: Dict, b: Dict)
    requires StrictlySorted(a) && StrictlySorted(b)
    requires forall x :: x in a <==> x in b
    ensures a == b
  {
    if a == [] {
      assert forall k :: 0 <= k < |b| ==> b[k] !in a;
    } else {
      assert a[0] in b;
      assert b != [];
      var j :| 0 <= j < |b| && b[j] == a[0];
      assert b[0] in a;
      var i :| 0 <= i < |a| && a[i] == b[0];
      if j > 0 {
        if i == 0 {
          BelowIrreflexive(a[0].0);
        } else {
          BelowAsymmetric(a[0].0, b[0].0);
        }
        assert false;
      }
      var ta, tb := a[1..], b[1..];
      forall x ensures x in ta <==> x in tb {
        if x in ta {
          var k :| 0 <= k < |ta| && ta[k] == x;
          assert a[k + 1] == x;
          if x == b[0] {
            BelowIrreflexive(a[0].0);
          }
          assert x in b;
          var l :| 0 <= l < |b| && b[l] == x;
          assert l > 0;
          assert tb[l - 1] == x;
        }
        if x in tb {
          var k :| 0 <= k < |tb| && tb[k] == x;
          assert b[k + 1] == x;
          if x == a[0] {
            BelowIrreflexive(b[0].0);
          }
          assert x in a;
          var l :| 0 <= l < |a| && a[l] == x;
          assert l > 0;
          assert ta[l - 1] == x;
        }
      }
      SortedUnique(ta, tb);
      assert a == [a[0]] + ta && b == [b[0]] + tb;
    }
  }

  /** `sorted(d.items())` depends only on the dictionary, not on the order its items were
      inserted in. */
  lemma SortItemsOrderIndependent(d1: Dict, d2: Dict)
    requires DistinctKeys(d1) && DistinctKeys(d2) && SameItems(d1, d2)
    ensures SortItems(d1) == SortItems(d2)
  {
    SortItemsSpec(d1);
    SortItemsSpec(d2);
    var s1, s2 := SortItems(d1), SortItems(d2);
    forall x ensures x in s1 <==> x in s2 {
      calc {
        x in s1;
        x in multiset(s1);
        x in multiset(d1);
        x in d1;
        x in d2;
        x in multiset(d2);
        x in multiset(s2);
        x in s2;
      }
    }
    SortedUnique(s1, s2);
  }

  /** `dict(items)`: the mapping the items build when inserted in order, a later item with the
      same key replacing an earlier one. */
  function ToMap(d: Dict): (m: map<string, Value>)
    ensures forall k :: k in m <==> exists i :: 0 <= i < |d| && d[i].0 == k
  {
    if d == [] then map[]
    else
      var m := ToMap(d[..|d| - 1]);
      assert forall i :: 0 <= i < |d| - 1 ==> d[..|d| - 1][i] == d[i];
      m[d[|d| - 1].0 := d[|d| - 1].1]
  }

  /** With distinct keys, every item is in the mapping. */
  lemma {:induction false} ToMapItems(d: Dict)
    requires DistinctKeys(d)
    ensures forall i :: 0 <= i < |d| ==> ToMap(d)[d[i].0] == d[i].1
  {
    if d != [] {
      var init := d[..|d| - 1];
      assert DistinctKeys(init);
      ToMapItems(init);
      forall i | 0 <= i < |d| ensures ToMap(d)[d[i].0] == d[i].1 {
        if i < |d| - 1 {
          assert init[i] == d[i];
        }
      }
    }
  }

  /** Two dictionaries with distinct keys and the same items build the same mapping, whatever
      their order. */
  lemma ToMapSameItems(d1: Dict, d2: Dict)
    requires DistinctKeys(d1) && DistinctKeys(d2) && SameItems(d1, d2)
    ensures ToMap(d1) == ToMap(d2)
  {
    ToMapItems(d1);
    ToMapItems(d2);
    var m1, m2 := ToMap(d1), ToMap(d2);
    forall k | k in m1 ensures k in m2 && m1[k] == m2[k] {
      var i :| 0 <= i < |d1| && d1[i].0 == k;
      assert d1[i] in d2;
      var j :| 0 <= j < |d2| && d2[j] == d1[i];
    }
    forall k | k in m2 ensures k in m1 {
      var j :| 0 <= j < |d2| && d2[j].0 == k;
      assert d2[j] in d1;
      var i :| 0 <= i < |d1| && d1[i] == d2[j];
    }
  }

  /** A strictly sorted item sequence has distinct keys. */
  lemma SortedDistinct(d: Dict)
    requires StrictlySorted(d)
    ensures DistinctKeys(d)
  {
    forall i, j | 0 <= i < j < |d| ensures d[i].0 != d[j].0 {
      if d[i].0 == d[j].0 {
        BelowIrreflexive(d[i].0);
      }
    }
  }

  /** `dict(sorted(d.items())) == d`. */
  lemma ToMapSortItems(d: Dict)
    requires DistinctKeys(d)
    ensures DistinctKeys(SortItems(d)) && SameItems(SortItems(d), d)
    ensures ToMap(SortItems(d)) == ToMap(d)
  {
    SortItemsSpec(d);
    var s := SortItems(d);
    SortedDistinct(s);
    forall x ensures x in s <==> x in d {
      assert x in s <==> x in multiset(s);
      assert x in d <==> x in multiset(d);
    }
    ToMapSameItems(s, d);
  }
}
