/**
 * Where a cursor lands.
 *
 * A cursor is positioned by a lower-bound search (the least key at or after a
 * search key) and moved by stepping to the next key (the least key after its
 * own) or to the previous one (the greatest key before its own, or the greatest
 * key of all when stepping back from the end). `IsFirstAtOrAfter` and
 * `IsLastBefore` state what these searches must return; the lemmas here locate
 * their answers in the ascending listing of the store's keys, which is where
 * the scans of module `Scans` read them.
 */
module Neighbours {
  import opened Wrappers
  import opened KeyOrder
  import opened SortedKeys
  import opened Scans

  /** `r` is the least of `keys` at or after `anchor`, or None when none is. */
  ghost predicate IsFirstAtOrAfter(keys: set<Key>, anchor: Key, r: Option<Key>) {
    (r.Some? ==>
       r.value in keys && AtOrBelow(anchor, r.value) &&
       forall k :: k in keys && AtOrBelow(anchor, k) ==> AtOrBelow(r.value, k)) &&
    (r.None? ==> forall k :: k in keys ==> !AtOrBelow(anchor, k))
  }

  /** `k` sorts strictly before `bound`; every key does when there is no bound. */
  predicate BelowBound(k: Key, bound: Option<Key>) {
    bound.None? || Below(k, bound.value)
  }

  /** `r` is the greatest of `keys` strictly before `bound` (the greatest of all when there is no bound), or None when none is. */
  ghost predicate IsLastBefore(keys: set<Key>, bound: Option<Key>, r: Option<Key>) {
    (r.Some? ==>
       r.value in keys && BelowBound(r.value, bound) &&
       forall k :: k in keys && BelowBound(k, bound) ==> AtOrBelow(k, r.value)) &&
    (r.None? ==> forall k :: k in keys ==> !BelowBound(k, bound))
  }

  /** `ks` lists the keys of `m` in ascending order. */
  ghost predicate Lists(ks: seq<Key>, m: map<Key, Value>) {
    Ascending(ks) && forall k :: k in ks <==> k in m
  }

  /** The lower-bound position is the only position with every earlier key before the anchor and no later one. */
  lemma LowerBoundIndexUnique(ks: seq<Key>, anchor: Key, i: nat)
    requires Ascending(ks) && i <= |ks|
    requires forall t :: 0 <= t < i ==> Below(ks[t], anchor)
    requires i < |ks| ==> AtOrBelow(anchor, ks[i])
    ensures i == LowerBoundIndex(ks, anchor)
  {
    var j := LowerBoundIndex(ks, anchor);
    if j < i {
      BelowAsymmetric(ks[j], anchor);
      BelowIrreflexive(anchor);
    } else if i < j {
      BelowAsymmetric(ks[i], anchor);
      BelowIrreflexive(anchor);
    }
  }

  /** Any answer to a lower-bound search is the key at the lower-bound position of the listing. */
  lemma FirstAtOrAfterAt(m: map<Key, Value>, ks: seq<Key>, anchor: Key, r: Option<Key>)
    requires Lists(ks, m) && IsFirstAtOrAfter(m.Keys, anchor, r)
    ensures LowerBoundIndex(ks, anchor) < |ks| ==> r == Some(ks[LowerBoundIndex(ks, anchor)])
    ensures LowerBoundIndex(ks, anchor) == |ks| ==> r == None
  {
    var i := LowerBoundIndex(ks, anchor);
    assert i < |ks| ==> ks[i] in m;
    if r.Some? {
      var t :| 0 <= t < |ks| && ks[t] == r.value;
      if t < i {
        BelowAsymmetric(ks[t], anchor);
        BelowIrreflexive(anchor);
      }
      AscendingIndexOrder(ks, t, i);
    }
  }

  /** How many keys of the listing sort strictly before `bound`. */
  function BoundIndex(ks: seq<Key>, bound: Option<Key>): (u: nat)
    ensures u <= |ks|
  {
    match bound
    case None => |ks|
    case Some(b) => LowerBoundIndex(ks, b)
  }

  /** The keys before a bound are exactly those before its position in the listing. */
  lemma BoundIndexSplits(ks: seq<Key>, bound: Option<Key>, t: nat)
    requires Ascending(ks) && t < |ks|
    ensures BelowBound(ks[t], bound) <==> t < BoundIndex(ks, bound)
  {
    if bound.Some? {
      var b := bound.value;
      var u := LowerBoundIndex(ks, b);
      if u <= t {
        AscendingIndexOrder(ks, u, t);
        AtOrBelowTransitive(b, ks[u], ks[t]);
        if Below(ks[t], b) {
          BelowAsymmetric(ks[t], b);
          BelowIrreflexive(b);
        }
      }
    }
  }

  /** Any answer to a search for the last key before a bound is the key just before the bound's position. */
  lemma LastBeforeAt(m: map<Key, Value>, ks: seq<Key>, bound: Option<Key>, r: Option<Key>)
    requires Lists(ks, m) && IsLastBefore(m.Keys, bound, r)
    ensures BoundIndex(ks, bound) > 0 ==> r == Some(ks[BoundIndex(ks, bound) - 1])
    ensures BoundIndex(ks, bound) == 0 ==> r == None
  {
    var u := BoundIndex(ks, bound);
    if u > 0 {
      BoundIndexSplits(ks, bound, u - 1);
      assert ks[u - 1] in m;
    }
    if r.Some? {
      var t :| 0 <= t < |ks| && ks[t] == r.value;
      BoundIndexSplits(ks, bound, t);
      AscendingIndexOrder(ks, u - 1, t);
    }
  }

  /** Stepping forward from the key at position `j` lands on position `j + 1`, or on nothing after the last key. */
  lemma SuccessorAt(m: map<Key, Value>, ks: seq<Key>, j: nat, r: Option<Key>)
    requires Lists(ks, m) && j < |ks| && IsFirstAtOrAfter(m.Keys, ks[j] + [0], r)
    ensures j + 1 < |ks| ==> r == Some(ks[j + 1])
    ensures j + 1 == |ks| ==> r == None
  {
    var e := ks[j] + [0];
    forall t | 0 <= t < j + 1
      ensures Below(ks[t], e)
    {
      AscendingIndexOrder(ks, j, t);
      ZeroExtensionIsSuccessor(ks[j], ks[t]);
      BelowTotal(e, ks[t]);
    }
    if j + 1 < |ks| {
      AscendingIndexOrder(ks, j, j + 1);
      ZeroExtensionIsSuccessor(ks[j], ks[j + 1]);
    }
    LowerBoundIndexUnique(ks, e, j + 1);
    FirstAtOrAfterAt(m, ks, e, r);
  }

  /** The key-order description of the lower-bound search agrees with `Scans.FirstAtOrAfter`. */
  lemma FirstAtOrAfterIsUnique(m: map<Key, Value>, anchor: Key, r: Option<Key>)
    requires IsFirstAtOrAfter(m.Keys, anchor, r)
    ensures r == FirstAtOrAfter(m, anchor)
  {
    var ks := Sorted(m.Keys);
    FirstAtOrAfterAt(m, ks, anchor, r);
    LowerBoundLands(m, anchor);
  }

  /** A key of the store is where a lower-bound search for it lands. */
  lemma FirstAtOrAfterPresent(m: map<Key, Value>, k: Key)
    requires k in m
    ensures FirstAtOrAfter(m, k) == Some(k)
  {
    var f := FirstAtOrAfter(m, k).value;
    if f != k {
      BelowAsymmetric(k, f);
    }
  }

  /** The least key of `m` strictly after `k`: where stepping forward from `k` lands. */
  ghost function FirstAfter(m: map<Key, Value>, k: Key): (r: Option<Key>)
    ensures r.Some? ==> r.value in m && Below(k, r.value)
    ensures r.Some? ==> forall x :: x in m && Below(k, x) ==> AtOrBelow(r.value, x)
    ensures r.None? ==> forall x :: x in m ==> !Below(k, x)
  {
    forall x
      ensures Below(k, x) <==> AtOrBelow(k + [0], x)
    {
      ZeroExtensionIsSuccessor(k, x);
    }
    FirstAtOrAfter(m, k + [0])
  }

  /** The greatest key of `m` strictly before `bound`, or the greatest of all when there is no bound. */
  ghost function LastBefore(m: map<Key, Value>, bound: Option<Key>): (r: Option<Key>)
    ensures r.Some? ==> r.value in m
  {
    var ks := Sorted(m.Keys);
    var u := BoundIndex(ks, bound);
    if u > 0 then Some(ks[u - 1]) else None
  }

  /** The answer a lower-bound search keeps after examining one more key. */
  function FirstAtOrAfterPick(anchor: Key, k: Key, r: Option<Key>): Option<Key> {
    if AtOrBelow(anchor, k) && (r.None? || Below(k, r.value)) then Some(k) else r
  }

  /** Examining one more key keeps the answer of a lower-bound search correct. */
  lemma FirstAtOrAfterStep(done: set<Key>, k: Key, anchor: Key, r: Option<Key>)
    requires IsFirstAtOrAfter(done, anchor, r) && k !in done
    ensures IsFirstAtOrAfter(done + {k}, anchor, FirstAtOrAfterPick(anchor, k, r))
  {
    if AtOrBelow(anchor, k) && (r.None? || Below(k, r.value)) {
      forall x | x in done + {k} && AtOrBelow(anchor, x)
        ensures AtOrBelow(k, x)
      {
        if x != k {
          BelowThenAtOrBelow(k, r.value, x);
        }
      }
    } else if AtOrBelow(anchor, k) {
      BelowTotal(k, r.value);
    }
  }

  /** The answer a search for the last key before a bound keeps after examining one more key. */
  function LastBeforePick(bound: Option<Key>, k: Key, r: Option<Key>): Option<Key> {
    if BelowBound(k, bound) && (r.None? || Below(r.value, k)) then Some(k) else r
  }

  /** Examining one more key keeps the answer of a search for the last key before a bound correct. */
  lemma LastBeforeStep(done: set<Key>, k: Key, bound: Option<Key>, r: Option<Key>)
    requires IsLastBefore(done, bound, r) && k !in done
    ensures IsLastBefore(done + {k}, bound, LastBeforePick(bound, k, r))
  {
    if BelowBound(k, bound) && (r.None? || Below(r.value, k)) {
      forall x | x in done + {k} && BelowBound(x, bound)
        ensures AtOrBelow(x, k)
      {
        if x != k {
          AtOrBelowThenBelow(x, r.value, k);
        }
      }
    } else if BelowBound(k, bound) {
      BelowTotal(k, r.value);
    }
  }

  /** The key-order description of the backward search agrees with `LastBefore`. */
  lemma LastBeforeIsUnique(m: map<Key, Value>, bound: Option<Key>, r: Option<Key>)
    requires IsLastBefore(m.Keys, bound, r)
    ensures r == LastBefore(m, bound)
  {
    LastBeforeAt(m, Sorted(m.Keys), bound, r);
  }

  /** `LastBefore` is the greatest key strictly before the bound, or None when no key is. */
  lemma LastBeforeIsGreatestBelow(m: map<Key, Value>, bound: Option<Key>)
    ensures IsLastBefore(m.Keys, bound, LastBefore(m, bound))
  {
    var ks := Sorted(m.Keys);
    var u := BoundIndex(ks, bound);
    var r := LastBefore(m, bound);
    forall k | k in m.Keys
      ensures BelowBound(k, bound) ==> r.Some? && AtOrBelow(k, r.value)
      ensures r.None? ==> !BelowBound(k, bound)
    {
      var t :| 0 <= t < |ks| && ks[t] == k;
      BoundIndexSplits(ks, bound, t);
      if t < u {
        AscendingIndexOrder(ks, t, u - 1);
      }
    }
    if u > 0 {
      BoundIndexSplits(ks, bound, u - 1);
    }
  }

  /** In the ascending listing, stepping forward from position `j` lands on position `j + 1`. */
  lemma NextInListing(m: map<Key, Value>, ks: seq<Key>, j: nat)
    requires ks == Sorted(m.Keys) && j < |ks|
    ensures FirstAfter(m, ks[j]) == if j + 1 < |ks| then Some(ks[j + 1]) else None
  {
    SuccessorAt(m, ks, j, FirstAfter(m, ks[j]));
  }

  /** In the ascending listing, stepping back from position `j` lands on position `j - 1`. */
  lemma PrevInListing(m: map<Key, Value>, ks: seq<Key>, j: nat)
    requires ks == Sorted(m.Keys) && j < |ks|
    ensures LastBefore(m, Some(ks[j])) == if j > 0 then Some(ks[j - 1]) else None
  {
    forall t | 0 <= t < j
      ensures Below(ks[t], ks[j])
    {
      AscendingIndexOrder(ks, t, j);
    }
    LowerBoundIndexUnique(ks, ks[j], j);
  }

  /** Stepping back from where a lower-bound search for `b` lands is stepping back from `b` itself. */
  lemma PrevOfLowerBound(m: map<Key, Value>, b: Key)
    ensures FirstAtOrAfter(m, b).None? ==> LastBefore(m, Some(b)) == LastBefore(m, None)
    ensures FirstAtOrAfter(m, b).Some? ==> LastBefore(m, Some(b)) == LastBefore(m, Some(FirstAtOrAfter(m, b).value))
  {
    var ks := Sorted(m.Keys);
    var i := LowerBoundIndex(ks, b);
    LowerBoundLands(m, b);
    if i < |ks| {
      forall t | 0 <= t < i
        ensures Below(ks[t], ks[i])
      {
        AscendingIndexOrder(ks, t, i);
      }
      LowerBoundIndexUnique(ks, ks[i], i);
    }
  }

  /** Stepping forward from each key of a tail of the listing lands on the key after it in the tail. */
  lemma ForwardSteps(m: map<Key, Value>, ks: seq<Key>, i: nat, s: seq<Key>)
    requires ks == Sorted(m.Keys) && i <= |ks| && s == ks[i..]
    ensures forall n :: 0 <= n < |s| ==> FirstAfter(m, s[n]) == if n + 1 < |s| then Some(s[n + 1]) else None
  {
    forall n | 0 <= n < |s|
      ensures FirstAfter(m, s[n]) == if n + 1 < |s| then Some(s[n + 1]) else None
    {
      NextInListing(m, ks, i + n);
    }
  }

  /** Stepping back from each key of a reversed head of the listing lands on the key after it there. */
  lemma ReverseSteps(m: map<Key, Value>, ks: seq<Key>, u: nat, d: seq<Key>)
    requires ks == Sorted(m.Keys) && u <= |ks| && d == Reversed(ks[..u])
    ensures forall n :: 0 <= n < |d| ==> LastBefore(m, Some(d[n])) == if n + 1 < |d| then Some(d[n + 1]) else None
  {
    forall n | 0 <= n < |d|
      ensures LastBefore(m, Some(d[n])) == if n + 1 < |d| then Some(d[n + 1]) else None
    {
      PrevInListing(m, ks, u - 1 - n);
      assert d[n] == ks[u - 1 - n];
      if n + 1 < |d| {
        assert d[n + 1] == ks[u - 2 - n];
      }
    }
  }

  /**
   * The keys a forward walk from `lower`, or from `prefix` without a lower
   * bound, visits: a lower-bound search lands on the first, and stepping
   * forward from each lands on the one after it. The forward scan is the
   * leading run of them that have `prefix`.
   */
  lemma ForwardWalk(m: map<Key, Value>, prefix: Key, lower: Option<Key>) returns (s: seq<Key>)
    ensures forall k :: k in s ==> k in m
    ensures FirstAtOrAfter(m, lower.GetOr(prefix)) == if |s| > 0 then Some(s[0]) else None
    ensures forall n :: 0 <= n < |s| ==> FirstAfter(m, s[n]) == if n + 1 < |s| then Some(s[n + 1]) else None
    ensures ScanKeys(m, prefix, lower) == s[..PrefixRun(s, prefix)]
  {
    var ks := Sorted(m.Keys);
    var i := LowerBoundIndex(ks, lower.GetOr(prefix));
    s := ks[i..];
    LowerBoundLands(m, lower.GetOr(prefix));
    forall k | k in s
      ensures k in m
    {
      var t := SlicePosition(ks, i, |ks|, k);
    }
    ForwardSteps(m, ks, i, s);
    var p := PrefixRun(s, prefix);
    assert s[..p] == ks[i..i + p];
  }

  /** Where a reverse scan starts: the lower-bound search for `lower`, or the last key before `NextPrefix(prefix)`. */
  ghost function ReverseStart(m: map<Key, Value>, prefix: Key, lower: Option<Key>): (r: Option<Key>)
    ensures r.Some? ==> r.value in m
  {
    match lower
    case Some(l) => FirstAtOrAfter(m, l)
    case None => LastBefore(m, NextPrefix(prefix))
  }

  /**
   * The keys a reverse walk visits: it starts on `ReverseStart`, and stepping
   * back from each lands on the one after it. The reverse scan is the leading
   * run of them that have `prefix`.
   */
  lemma ReverseWalk(m: map<Key, Value>, prefix: Key, lower: Option<Key>) returns (d: seq<Key>)
    ensures forall k :: k in d ==> k in m
    ensures ReverseStart(m, prefix, lower) == if |d| > 0 then Some(d[0]) else None
    ensures forall n :: 0 <= n < |d| ==> LastBefore(m, Some(d[n])) == if n + 1 < |d| then Some(d[n + 1]) else None
    ensures ScanRevKeys(m, prefix, lower) == d[..PrefixRun(d, prefix)]
  {
    var ks := Sorted(m.Keys);
    var u := ReverseEnd(ks, prefix, lower);
    d := Reversed(ks[..u]);
    forall k | k in d
      ensures k in m
    {
      var n :| 0 <= n < |d| && d[n] == k;
      assert d[n] == ks[u - 1 - n];
    }
    if lower.Some? {
      LowerBoundLands(m, lower.value);
    }
    if u > 0 {
      assert d[0] == ks[u - 1];
    }
    ReverseSteps(m, ks, u, d);
  }

  /** A lower-bound position is fixed by the keys on either side of it. */
  lemma LowerBoundIndexAt(ks: seq<Key>, anchor: Key, i: nat)
    requires Ascending(ks) && i <= |ks|
    requires i > 0 ==> Below(ks[i - 1], anchor)
    requires i < |ks| ==> AtOrBelow(anchor, ks[i])
    ensures LowerBoundIndex(ks, anchor) == i
  {
    forall t | 0 <= t < i
      ensures Below(ks[t], anchor)
    {
      AscendingIndexOrder(ks, t, i - 1);
      AtOrBelowThenBelow(ks[t], ks[i - 1], anchor);
    }
    LowerBoundIndexUnique(ks, anchor, i);
  }

  /** A forward scan is fixed by where its anchor falls in the listing and where the prefix run after it ends. */
  lemma ScanKeysAt(m: map<Key, Value>, prefix: Key, lower: Option<Key>, ks: seq<Key>, i: nat, n: nat)
    requires ks == Sorted(m.Keys) && i + n <= |ks|
    requires i > 0 ==> Below(ks[i - 1], lower.GetOr(prefix))
    requires i < |ks| ==> AtOrBelow(lower.GetOr(prefix), ks[i])
    requires n > 0 ==> HasPrefix(ks[i], prefix) && HasPrefix(ks[i + n - 1], prefix)
    requires i + n < |ks| ==> !HasPrefix(ks[i + n], prefix)
    ensures ScanKeys(m, prefix, lower) == ks[i..i + n]
  {
    LowerBoundIndexAt(ks, lower.GetOr(prefix), i);
    PrefixRunBetween(ks, prefix, i, n);
  }

  /** A reverse scan is fixed by the position it starts below and where the prefix run before it ends. */
  lemma ScanRevKeysAt(m: map<Key, Value>, prefix: Key, lower: Option<Key>, ks: seq<Key>, u: nat, n: nat)
    requires ks == Sorted(m.Keys) && u == ReverseEnd(ks, prefix, lower) && n <= u
    requires n > 0 ==> HasPrefix(ks[u - n], prefix) && HasPrefix(ks[u - 1], prefix)
    requires n < u ==> !HasPrefix(ks[u - 1 - n], prefix)
    ensures ScanRevKeys(m, prefix, lower) == Reversed(ks[u - n..u])
  {
    ReverseRunBetween(ks, prefix, u, n);
    ReverseRunSlice(ks, prefix, u, n);
    ReversedTwice(ScanRevKeys(m, prefix, lower));
  }
}
