/**
 * Keys and their order.
 *
 * Keys and values of the store are opaque byte strings. Keys are ordered by
 * unsigned byte-wise lexicographic comparison: the empty key sorts first and
 * a key sorts before every longer key it is a prefix of. A prefix scan is
 * bounded by the key range of the prefix, whose exclusive upper end is
 * computed by `NextPrefix`.
 */
module KeyOrder {
  import opened Wrappers

  /** An unsigned byte. */
  newtype byte = b: int | 0 <= b < 256

  type Key = seq<byte>
  type Value = seq<byte>

  /** `a` sorts strictly before `b` in unsigned lexicographic order; nothing sorts before the empty key. */
  predicate Below(a: Key, b: Key): (r: bool)
    ensures r ==> b != []
    decreases |a|
  {
    if a == [] then b != []
    else if b == [] then false
    else a[0] < b[0] || (a[0] == b[0] && Below(a[1..], b[1..]))
  }

  predicate AtOrBelow(a: Key, b: Key) {
    a == b || Below(a, b)
  }

  /** The first |p| bytes of `k` are exactly `p`. */
  predicate HasPrefix(k: Key, p: Key) {
    |p| <= |k| && k[..|p|] == p
  }

  lemma {:induction false} BelowIrreflexive(a: Key)
    ensures !Below(a, a)
    decreases |a|
  {
    if a != [] {
      BelowIrreflexive(a[1..]);
    }
  }

  lemma {:induction false} BelowTransitive(a: Key, b: Key, c: Key)
    requires Below(a, b) && Below(b, c)
    ensures Below(a, c)
    decreases |a|
  {
    if a != [] && a[0] == b[0] && b[0] == c[0] {
      BelowTransitive(a[1..], b[1..], c[1..]);
    }
  }

  /** Any two distinct keys are ordered one way or the other. */
  lemma {:induction false} BelowTotal(a: Key, b: Key)
    ensures a == b || Below(a, b) || Below(b, a)
    decreases |a|
  {
    if a != [] && b != [] && a[0] == b[0] {
      BelowTotal(a[1..], b[1..]);
      if a[1..] == b[1..] {
        assert a == [a[0]] + a[1..];
        assert b == [b[0]] + b[1..];
      }
    }
  }

  lemma BelowAsymmetric(a: Key, b: Key)
    requires Below(a, b)
    ensures !Below(b, a)
  {
    if Below(b, a) {
      BelowTransitive(a, b, a);
      BelowIrreflexive(a);
    }
  }

  lemma AtOrBelowTransitive(a: Key, b: Key, c: Key)
    requires AtOrBelow(a, b) && AtOrBelow(b, c)
    ensures AtOrBelow(a, c)
  {
    if a != b && b != c {
      BelowTransitive(a, b, c);
    }
  }

  lemma AtOrBelowThenBelow(a: Key, b: Key, c: Key)
    requires AtOrBelow(a, b) && Below(b, c)
    ensures Below(a, c)
  {
    if a != b {
      BelowTransitive(a, b, c);
    }
  }

  lemma BelowThenAtOrBelow(a: Key, b: Key, c: Key)
    requires Below(a, b) && AtOrBelow(b, c)
    ensures Below(a, c)
  {
    if b != c {
      BelowTransitive(a, b, c);
    }
  }

  /** A key sorts no later than any key it is a prefix of; in particular the empty key sorts first. */
  lemma {:induction false} PrefixSortsFirst(p: Key, k: Key)
    requires HasPrefix(k, p)
    ensures AtOrBelow(p, k)
    ensures p != k ==> Below(p, k)
    decreases |p|
  {
    if p != [] {
      assert k[1..][..|p| - 1] == p[1..];
      PrefixSortsFirst(p[1..], k[1..]);
      if p[1..] == k[1..] {
        assert p == [p[0]] + p[1..];
        assert k == [k[0]] + k[1..];
      }
    }
  }

  /** Comparing two keys that share a leading part compares what follows it. */
  lemma {:induction false} SharedPrefixOrder(q: Key, a: Key, b: Key)
    ensures Below(q + a, q + b) <==> Below(a, b)
    decreases |q|
  {
    if q == [] {
      assert q + a == a && q + b == b;
    } else {
      assert (q + a)[0] == q[0] == (q + b)[0];
      assert (q + a)[1..] == q[1..] + a;
      assert (q + b)[1..] == q[1..] + b;
      SharedPrefixOrder(q[1..], a, b);
    }
  }

  /**
   * The range of the prefix: the exclusive upper bound of the keys that have `p`
   * as a prefix. Trailing 0xFF bytes are dropped and the last remaining byte is
   * incremented (00 FF FF becomes 01); when nothing remains, the range is
   * unbounded above and the result is None.
   */
  function NextPrefix(p: Key): (r: Option<Key>)
    ensures r.None? <==> forall i :: 0 <= i < |p| ==> p[i] == 255
    ensures r.Some? ==> var n := |r.value|;
      0 < n <= |p| && r.value[..n - 1] == p[..n - 1] && p[n - 1] < 255 &&
      r.value[n - 1] as int == p[n - 1] as int + 1 &&
      forall i :: n <= i < |p| ==> p[i] == 255
    decreases |p|
  {
    if p == [] then None
    else if p[|p| - 1] == 255 then
      var q := p[..|p| - 1];
      assert forall i :: 0 <= i < |q| ==> q[i] == p[i];
      NextPrefix(q)
    else Some(p[..|p| - 1] + [p[|p| - 1] + 1])
  }

  lemma {:induction false} IncrementLastBounds(q: Key, x: byte, k: Key)
    requires x < 255
    ensures HasPrefix(k, q + [x]) <==> AtOrBelow(q + [x], k) && Below(k, q + [x + 1])
    decreases |q|
  {
    var p, n := q + [x], q + [x + 1];
    if q == [] {
      if HasPrefix(k, p) {
        PrefixSortsFirst(p, k);
      }
      if AtOrBelow(p, k) && Below(k, n) {
        assert k != [];
        assert n[0] == x + 1 && n[1..] == [];
        assert !Below(k[1..], []);
        assert k[0] <= x;
        assert k[0] == x;
      }
    } else {
      assert p[1..] == q[1..] + [x];
      assert n[1..] == q[1..] + [x + 1];
      if k != [] {
        IncrementLastBounds(q[1..], x, k[1..]);
        if HasPrefix(k, p) {
          assert k[1..][..|p| - 1] == p[1..];
        }
        if AtOrBelow(p, k) && Below(k, n) {
          assert p[0] == q[0] && n[0] == q[0];
          assert k[0] == q[0];
          if p == k {
            assert p[1..] == k[1..];
          }
          assert HasPrefix(k[1..], p[1..]);
          assert k == [k[0]] + k[1..];
        }
      }
    }
  }

  /** Appending a 255 byte keeps the next prefix, and the bounds carry over from the shorter prefix. */
  lemma TrailingMaxBounds(q: Key, k: Key)
    requires HasPrefix(k, q) <==>
               AtOrBelow(q, k) && (NextPrefix(q).None? || Below(k, NextPrefix(q).value))
    ensures NextPrefix(q + [255]) == NextPrefix(q)
    ensures HasPrefix(k, q + [255]) <==>
              AtOrBelow(q + [255], k) && (NextPrefix(q).None? || Below(k, NextPrefix(q).value))
  {
    var p := q + [255];
    assert p[..|p| - 1] == q;
    assert HasPrefix(p, q);
    PrefixSortsFirst(q, p);
    if HasPrefix(k, p) {
      PrefixSortsFirst(p, k);
      assert k[..|q|] == q;
    }
    if AtOrBelow(p, k) && (NextPrefix(q).None? || Below(k, NextPrefix(q).value)) {
      AtOrBelowTransitive(q, p, k);
      var t := k[|q|..];
      assert k == q + t;
      if p != k {
        SharedPrefixOrder(q, [255], t);
      }
      assert t != [] && t[0] == 255;
      assert k[..|p|] == q + [t[0]];
    }
  }

  /**
   * The keys with prefix `p` are exactly the keys from `p` up to, and not
   * including, `NextPrefix(p)`; when that is None, every key from `p` up.
   */
  lemma {:induction false} NextPrefixBounds(p: Key, k: Key)
    ensures HasPrefix(k, p) <==>
              AtOrBelow(p, k) && (NextPrefix(p).None? || Below(k, NextPrefix(p).value))
    decreases |p|
  {
    if p != [] {
      var q, x := p[..|p| - 1], p[|p| - 1];
      assert p == q + [x];
      if x == 255 {
        NextPrefixBounds(q, k);
        TrailingMaxBounds(q, k);
      } else {
        IncrementLastBounds(q, x, k);
      }
    }
  }

  /** The keys with a given prefix form one contiguous run of the key order. */
  lemma PrefixConvex(p: Key, a: Key, b: Key, c: Key)
    requires HasPrefix(a, p) && HasPrefix(c, p)
    requires AtOrBelow(a, b) && AtOrBelow(b, c)
    ensures HasPrefix(b, p)
  {
    NextPrefixBounds(p, a);
    NextPrefixBounds(p, b);
    NextPrefixBounds(p, c);
    AtOrBelowTransitive(p, a, b);
    if NextPrefix(p).Some? {
      AtOrBelowThenBelow(b, c, NextPrefix(p).value);
    }
  }

  /** The keys after `k` are exactly the keys at or after `k` followed by a zero byte, its immediate successor. */
  lemma {:induction false} ZeroExtensionIsSuccessor(k: Key, x: Key)
    ensures Below(k, x) <==> AtOrBelow(k + [0], x)
    decreases |k|
  {
    if k == [] {
      var z: Key := [0];
      assert k + [0] == z && z[0] == 0 && z[1..] == [];
      if x != [] && x[0] == 0 && x[1..] == [] {
        assert x == [x[0]] + x[1..];
      }
    } else if x != [] {
      var e := k + [0];
      assert e[0] == k[0] && e[1..] == k[1..] + [0];
      ZeroExtensionIsSuccessor(k[1..], x[1..]);
      if e == x {
        assert e[1..] == x[1..];
      }
      if k[0] == x[0] && k[1..] + [0] == x[1..] {
        assert x == [x[0]] + x[1..];
        assert e == [e[0]] + e[1..];
      }
    }
  }
}
