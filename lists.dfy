/** Python list operations the game code relies on: `list.remove`, filtering by membership, and a fact about `dict.values()`. */
module Lists {

  /** The position of the first occurrence of `x`. */
  function FirstIndex<T(==)>(s: seq<T>, x: T): (k: nat)
    requires x in s
    ensures k < |s| && s[k] == x && x !in s[..k]
  {
    if s[0] == x then 0
    else
      var k := FirstIndex(s[1..], x);
      assert s[..k + 1] == [s[0]] + s[1..][..k];
      k + 1
  }

  /**
    `list.remove(x)`: the list without its first occurrence of `x`, the
    others kept in order.
  */
  function RemoveFirst<T(==)>(s: seq<T>, x: T): (r: seq<T>)
    requires x in s
    ensures |r| == |s| - 1
    ensures multiset(r) == multiset(s) - multiset{x}
    ensures exists k :: 0 <= k < |s| && s[k] == x && x !in s[..k] && r == s[..k] + s[k + 1..]
  {
    var k := FirstIndex(s, x);
    assert s == s[..k] + [x] + s[k + 1..];
    s[..k] + s[k + 1..]
  }

  /** Removing the first occurrence of an element just appended, when it was not already there, gives back the list. */
  lemma {:induction false} RemoveFirstAppended<T>(s: seq<T>, x: T)
    requires x !in s
    ensures RemoveFirst(s + [x], x) == s
  {
    var k := FirstIndex(s + [x], x);
    assert k == |s|;
    assert (s + [x])[..k] == s;
  }

  /** A key under which a value of the map is stored. */
  lemma KeyOf<K, V>(m: map<K, V>, v: V) returns (k: K)
    requires v in m.Values
    ensures k in m && m[k] == v
  {
    assert exists k :: k in m.Keys && m[k] == v by {
      assert v in m.Values;
    }
    k :| k in m && m[k] == v;
  }

  /** `[c for c in s if c not in drop]`. */
  function Filter<T(==)>(s: seq<T>, drop: seq<T>): (r: seq<T>)
    ensures |r| <= |s|
    ensures forall i :: 0 <= i < |r| ==> r[i] in s && r[i] !in drop
    ensures forall i :: 0 <= i < |s| && s[i] !in drop ==> s[i] in r
  {
    if s == [] then []
    else
      var rest := Filter(s[1..], drop);
      assert forall i :: 1 <= i < |s| ==> s[i] == s[1..][i - 1];
      if s[0] in drop then rest else [s[0]] + rest
  }

  /** `[c for c in s if c in keep]`: the complement of `Filter`. */
  function Keep<T(==)>(s: seq<T>, keep: seq<T>): (r: seq<T>)
    ensures forall i :: 0 <= i < |r| ==> r[i] in s && r[i] in keep
    ensures forall i :: 0 <= i < |s| && s[i] in keep ==> s[i] in r
  {
    if s == [] then []
    else
      var rest := Keep(s[1..], keep);
      assert forall i :: 1 <= i < |s| ==> s[i] == s[1..][i - 1];
      if s[0] in keep then [s[0]] + rest else rest
  }

  predicate NoDups<T(==)>(s: seq<T>)
  {
    forall i, j :: 0 <= i < j < |s| ==> s[i] != s[j]
  }

  /** Filtering out and keeping split a list: together they hold its elements, each as often. */
  lemma {:induction false} FilterKeepSplit<T>(s: seq<T>, d: seq<T>)
    ensures multiset(Filter(s, d)) + multiset(Keep(s, d)) == multiset(s)
  {
    if s != [] {
      FilterKeepSplit(s[1..], d);
      assert s == [s[0]] + s[1..];
    }
  }

  /** What `Keep` returns from a list without duplicates has none either. */
  lemma {:induction false} KeepNoDups<T>(s: seq<T>, d: seq<T>)
    requires NoDups(s)
    ensures NoDups(Keep(s, d))
  {
    if s != [] {
      assert NoDups(s[1..]) by {
        forall i, j | 0 <= i < j < |s[1..]| ensures s[1..][i] != s[1..][j] {
          assert s[1..][i] == s[i + 1] && s[1..][j] == s[j + 1];
        }
      }
      KeepNoDups(s[1..], d);
      var rest := Keep(s[1..], d);
      assert s[0] !in s[1..];
      if s[0] in d {
        assert s[0] !in rest;
        var r := [s[0]] + rest;
        forall i, j | 0 <= i < j < |r| ensures r[i] != r[j] {
          if i == 0 {
            assert r[j] in rest;
          } else {
            assert r[i] == rest[i - 1] && r[j] == rest[j - 1];
          }
        }
      }
    }
  }

  /** In a list without duplicates every element occurs once. */
  lemma {:induction false} NoDupsCount<T>(s: seq<T>, x: T)
    requires NoDups(s)
    ensures multiset(s)[x] == if x in s then 1 else 0
  {
    if s != [] {
      assert s == [s[0]] + s[1..];
      assert NoDups(s[1..]) by {
        forall i, j | 0 <= i < j < |s[1..]| ensures s[1..][i] != s[1..][j] {
          assert s[1..][i] == s[i + 1] && s[1..][j] == s[j + 1];
        }
      }
      NoDupsCount(s[1..], x);
      if x == s[0] {
        assert x !in s[1..];
      }
    }
  }
}
