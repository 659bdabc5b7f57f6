/**
 * The ordered view of a store: its keys listed in ascending key order.
 *
 * The store keeps its entries in a map; the order in which a cursor visits
 * them is the ascending order of `KeyOrder.Below`. `Sorted` lists a set of keys
 * in that order, and `AscendingUnique` says that this listing is the only one,
 * so any strictly ascending sequence with the same keys is equal to it.
 */
module SortedKeys {
  import opened KeyOrder

  /** Each key sorts strictly before every later one. */
  ghost predicate Ascending(s: seq<Key>) {
    forall i, j {:trigger Below(s[i], s[j])} :: 0 <= i < j < |s| ==> Below(s[i], s[j])
  }

  /** In an ascending sequence, the order of the keys is the order of their positions. */
  lemma AscendingIndexOrder(s: seq<Key>, i: int, j: int)
    requires Ascending(s) && 0 <= i < |s| && 0 <= j < |s|
    ensures AtOrBelow(s[i], s[j]) <==> i <= j
    ensures Below(s[i], s[j]) <==> i < j
  {
    BelowIrreflexive(s[i]);
    if j < i {
      BelowAsymmetric(s[j], s[i]);
    }
  }

  lemma AscendingSlice(s: seq<Key>, a: int, b: int)
    requires Ascending(s) && 0 <= a <= b <= |s|
    ensures Ascending(s[a..b])
  {
    forall i, j | 0 <= i < j < b - a
      ensures Below(s[a..b][i], s[a..b][j])
    {
      assert s[a..b][i] == s[a + i] && s[a..b][j] == s[a + j];
    }
  }

  /** Some key of a non-empty set sorts no later than all the others. */
  lemma {:induction false} LeastExists(ks: set<Key>)
    requires ks != {}
    ensures exists m :: m in ks && forall k :: k in ks ==> AtOrBelow(m, k)
    decreases |ks|
  {
    var x :| x in ks;
    var rest := ks - {x};
    if rest == {} {
      assert ks == {x};
      assert forall k :: k in ks ==> AtOrBelow(x, k);
    } else {
      LeastExists(rest);
      var m :| m in rest && forall k :: k in rest ==> AtOrBelow(m, k);
      var l := LeastOfOneMore(rest, x, m);
      assert rest + {x} == ks;
    }
  }

  /** Adding `x` to a set whose least key is `m`: the least key is `x` or `m`. */
  lemma LeastOfOneMore(rest: set<Key>, x: Key, m: Key) returns (l: Key)
    requires m in rest && forall k :: k in rest ==> AtOrBelow(m, k)
    ensures l in rest + {x} && forall k :: k in rest + {x} ==> AtOrBelow(l, k)
  {
    BelowTotal(x, m);
    if Below(x, m) {
      l := x;
      forall k | k in rest + {x}
        ensures AtOrBelow(x, k)
      {
        if k != x {
          AtOrBelowTransitive(x, m, k);
        }
      }
    } else {
      l := m;
      forall k | k in rest + {x}
        ensures AtOrBelow(m, k)
      {
        if k == x {
          assert AtOrBelow(m, x);
        }
      }
    }
  }

  /** The key of a non-empty set that sorts first. */
  ghost function Least(ks: set<Key>): (m: Key)
    requires ks != {}
    ensures m in ks
    ensures forall k :: k in ks ==> AtOrBelow(m, k)
  {
    LeastExists(ks);
    var m :| m in ks && forall k :: k in ks ==> AtOrBelow(m, k);
    m
  }

  /** Every finite set of keys has an ascending listing: its least key, then a listing of the rest. */
  lemma {:induction false} ListingExists(ks: set<Key>)
    ensures exists r :: Ascending(r) && forall k :: k in r <==> k in ks
    decreases |ks|
  {
    if ks == {} {
      assert Ascending([]) && forall k :: k in [] <==> k in ks;
    } else {
      var m := Least(ks);
      ListingExists(ks - {m});
      var rest :| Ascending(rest) && forall k :: k in rest <==> k in ks - {m};
      var r := [m] + rest;
      forall i, j | 0 <= i < j < |r|
        ensures Below(r[i], r[j])
      {
        if i == 0 {
          assert r[j] == rest[j - 1] && r[j] in ks - {m};
        } else {
          assert r[i] == rest[i - 1] && r[j] == rest[j - 1];
        }
      }
      forall k
        ensures k in r <==> k in ks
      {
        assert k in r <==> k == m || k in rest;
      }
      assert Ascending(r) && forall k :: k in r <==> k in ks;
    }
  }

  /** The keys of `ks` in ascending order. */
  ghost function Sorted(ks: set<Key>): (r: seq<Key>)
    ensures Ascending(r)
    ensures forall k :: k in r <==> k in ks
  {
    ListingExists(ks);
    var r :| Ascending(r) && forall k :: k in r <==> k in ks;
    r
  }

  /** Two ascending sequences holding the same keys are the same sequence. */
  lemma {:induction false} AscendingUnique(a: seq<Key>, b: seq<Key>)
    requires Ascending(a) && Ascending(b)
    requires forall k :: k in a <==> k in b
    ensures a == b
    decreases |a|
  {
    assert |b| > 0 ==> b[0] in a;
    if a != [] {
      assert a[0] in b;
      var j :| 0 <= j < |b| && b[j] == a[0];
      assert b[0] in a;
      var i :| 0 <= i < |a| && a[i] == b[0];
      AscendingIndexOrder(a, 0, i);
      AscendingIndexOrder(b, 0, j);
      if a[0] != b[0] {
        BelowAsymmetric(a[0], b[0]);
        assert false;
      }
      forall k
        ensures k in a[1..] <==> k in b[1..]
      {
        if k in a[1..] {
          var t :| 1 <= t < |a| && a[t] == k;
          AscendingIndexOrder(a, 0, t);
          BelowIrreflexive(a[0]);
          assert k in b && k != b[0];
          var t' :| 0 <= t' < |b| && b[t'] == k;
          assert b[1..][t' - 1] == k;
        }
        if k in b[1..] {
          var t :| 1 <= t < |b| && b[t] == k;
          AscendingIndexOrder(b, 0, t);
          BelowIrreflexive(b[0]);
          assert k in a && k != a[0];
          var t' :| 0 <= t' < |a| && a[t'] == k;
          assert a[1..][t' - 1] == k;
        }
      }
      AscendingSlice(a, 1, |a|);
      AscendingSlice(b, 1, |b|);
      AscendingUnique(a[1..], b[1..]);
      assert a == [a[0]] + a[1..];
      assert b == [b[0]] + b[1..];
    }
  }

  /** The ascending listing of a set of keys is determined by the set. */
  lemma SortedIsAscendingListing(ks: set<Key>, s: seq<Key>)
    requires Ascending(s)
    requires forall k :: k in s <==> k in ks
    ensures Sorted(ks) == s
  {
    AscendingUnique(Sorted(ks), s);
  }
}
