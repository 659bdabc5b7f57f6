/**
 * Bounded range scans over the store's key order.
 *
 * A forward scan `Scan(m, prefix, lower)` searches the whole key order for the
 * first key at or after its anchor (`lower` when given, `prefix` otherwise) and
 * then yields entries in ascending order while their keys have `prefix` as a
 * byte prefix. A reverse scan `ScanRev` starts from the key the same search
 * lands on when `lower` is given, and otherwise from the greatest key with the
 * prefix (the key just before `NextPrefix(prefix)`, or the last key when the
 * prefix range is unbounded); it yields entries in descending order while their
 * keys have the prefix.
 *
 * `ScanKeysSpec` and `ScanRevKeysSpec` describe both results independently, as
 * the sorted set of keys they hold, and the lemmas after them derive the
 * behaviours that the store's tests pin down.
 */
module Scans {
  import opened Wrappers
  import opened KeyOrder
  import opened SortedKeys

  datatype Entry = Entry(key: Key, value: Value)

  /** Position of the first key of `ks` at or after `anchor`; |ks| when there is none. */
  function LowerBoundIndex(ks: seq<Key>, anchor: Key): (i: nat)
    ensures i <= |ks|
    ensures forall j :: 0 <= j < i ==> Below(ks[j], anchor)
    ensures i < |ks| ==> AtOrBelow(anchor, ks[i])
  {
    if ks == [] then 0
    else if AtOrBelow(anchor, ks[0]) then 0
    else
      BelowTotal(anchor, ks[0]);
      1 + LowerBoundIndex(ks[1..], anchor)
  }

  /** Length of the leading run of keys of `s` that have prefix `p`. */
  function PrefixRun(s: seq<Key>, p: Key): (n: nat)
    ensures n <= |s|
    ensures forall j :: 0 <= j < n ==> HasPrefix(s[j], p)
    ensures n < |s| ==> !HasPrefix(s[n], p)
  {
    if s != [] && HasPrefix(s[0], p) then 1 + PrefixRun(s[1..], p) else 0
  }

  /** The entries of `m` at the keys `ks`, in the order of `ks`. */
  function EntriesOf(m: map<Key, Value>, ks: seq<Key>): (r: seq<Entry>)
    requires forall k :: k in ks ==> k in m
    ensures |r| == |ks|
    ensures forall j :: 0 <= j < |ks| ==> r[j] == Entry(ks[j], m[ks[j]])
  {
    if ks == [] then [] else [Entry(ks[0], m[ks[0]])] + EntriesOf(m, ks[1..])
  }

  /** Taking one more key of `s` appends the entry at that key. */
  lemma EntriesOfStep(m: map<Key, Value>, s: seq<Key>, n: nat)
    requires n < |s| && forall k :: k in s ==> k in m
    ensures forall k :: k in s[..n] ==> k in m
    ensures forall k :: k in s[..n + 1] ==> k in m
    ensures EntriesOf(m, s[..n + 1]) == EntriesOf(m, s[..n]) + [Entry(s[n], m[s[n]])]
  {
    assert forall k :: k in s[..n] ==> k in s;
    assert forall k :: k in s[..n + 1] ==> k in s;
    var l, r := EntriesOf(m, s[..n + 1]), EntriesOf(m, s[..n]) + [Entry(s[n], m[s[n]])];
    forall j | 0 <= j < |l|
      ensures l[j] == r[j]
    {
    }
  }

  /** A run whose every key has the prefix and which ends at the end of `s` or at a key without it is the prefix run. */
  lemma {:induction false} PrefixRunExact(s: seq<Key>, p: Key, n: nat)
    requires n <= |s|
    requires forall j :: 0 <= j < n ==> HasPrefix(s[j], p)
    requires n < |s| ==> !HasPrefix(s[n], p)
    ensures PrefixRun(s, p) == n
    decreases n
  {
    if n > 0 {
      assert HasPrefix(s[0], p);
      assert forall j :: 0 <= j < n - 1 ==> s[1..][j] == s[j + 1];
      PrefixRunExact(s[1..], p, n - 1);
    }
  }

  function Reversed<T>(s: seq<T>): (r: seq<T>)
    ensures |r| == |s|
    ensures forall j :: 0 <= j < |s| ==> r[j] == s[|s| - 1 - j]
  {
    if s == [] then [] else [s[|s| - 1]] + Reversed(s[..|s| - 1])
  }

  lemma ReversedTwice<T>(s: seq<T>)
    ensures Reversed(Reversed(s)) == s
  {
  }

  /** Reversing a sequence of stored keys leaves them stored. */
  lemma ReversedKeysStored(m: map<Key, Value>, ks: seq<Key>)
    requires forall k :: k in ks ==> k in m
    ensures forall k :: k in Reversed(ks) ==> k in m
  {
    var rk := Reversed(ks);
    forall k | k in rk
      ensures k in m
    {
      var j :| 0 <= j < |rk| && rk[j] == k;
      assert ks[|ks| - 1 - j] == k;
    }
  }

  lemma EntriesOfReversed(m: map<Key, Value>, ks: seq<Key>)
    requires forall k :: k in ks ==> k in m
    ensures forall k :: k in Reversed(ks) ==> k in m
    ensures EntriesOf(m, Reversed(ks)) == Reversed(EntriesOf(m, ks))
  {
    ReversedKeysStored(m, ks);
    var rk := Reversed(ks);
    var e := EntriesOf(m, ks);
    var a := EntriesOf(m, rk);
    var b := Reversed(e);
    forall j | 0 <= j < |a|
      ensures a[j] == b[j]
    {
      var t := |ks| - 1 - j;
      assert rk[j] == ks[t];
      assert a[j] == Entry(ks[t], m[ks[t]]) == e[t];
    }
    assert a == b;
  }

  /** The keys a forward scan visits. */
  ghost function ScanKeys(m: map<Key, Value>, prefix: Key, lower: Option<Key>): (r: seq<Key>)
    ensures forall k :: k in r ==> k in m && HasPrefix(k, prefix)
  {
    var ks := Sorted(m.Keys);
    var i := LowerBoundIndex(ks, lower.GetOr(prefix));
    var r := ks[i..i + PrefixRun(ks[i..], prefix)];
    assert forall j :: 0 <= j < |r| ==> r[j] == ks[i..][j];
    r
  }

  /** A forward scan visits its keys in ascending order. */
  lemma ScanKeysAscending(m: map<Key, Value>, prefix: Key, lower: Option<Key>)
    ensures Ascending(ScanKeys(m, prefix, lower))
  {
    var ks := Sorted(m.Keys);
    var i := LowerBoundIndex(ks, lower.GetOr(prefix));
    AscendingSlice(ks, i, i + PrefixRun(ks[i..], prefix));
  }

  /** The entries a forward scan yields: stored entries with the prefix, in ascending key order. */
  ghost function Scan(m: map<Key, Value>, prefix: Key, lower: Option<Key>): (r: seq<Entry>)
    ensures forall e :: e in r ==> e.key in m && m[e.key] == e.value && HasPrefix(e.key, prefix)
    ensures forall i, j :: 0 <= i < j < |r| ==> Below(r[i].key, r[j].key)
  {
    var ks := ScanKeys(m, prefix, lower);
    ScanKeysAscending(m, prefix, lower);
    EntriesOf(m, ks)
  }

  /**
   * How many keys of `ks`, counted from the first, lie at or before the key a
   * reverse scan starts from.
   */
  function ReverseEnd(ks: seq<Key>, prefix: Key, lower: Option<Key>): (u: nat)
    ensures u <= |ks|
  {
    match lower
    case Some(l) =>
      var i := LowerBoundIndex(ks, l);
      if i < |ks| then i + 1 else 0
    case None =>
      match NextPrefix(prefix)
      case None => |ks|
      case Some(n) => LowerBoundIndex(ks, n)
  }

  /** The keys a reverse scan visits. */
  ghost function ScanRevKeys(m: map<Key, Value>, prefix: Key, lower: Option<Key>): (r: seq<Key>)
    ensures forall k :: k in r ==> k in m && HasPrefix(k, prefix)
  {
    var ks := Sorted(m.Keys);
    var d := Reversed(ks[..ReverseEnd(ks, prefix, lower)]);
    var r := d[..PrefixRun(d, prefix)];
    assert forall j :: 0 <= j < |r| ==> r[j] == d[j];
    assert forall k :: k in d ==> k in ks by {
      forall k | k in d ensures k in ks {
        var j :| 0 <= j < |d| && d[j] == k;
      }
    }
    r
  }

  /** A reverse scan visits its keys in descending order. */
  lemma ScanRevKeysDescending(m: map<Key, Value>, prefix: Key, lower: Option<Key>)
    ensures var r := ScanRevKeys(m, prefix, lower);
      forall i, j :: 0 <= i < j < |r| ==> Below(r[j], r[i])
  {
    var ks := Sorted(m.Keys);
    var u := ReverseEnd(ks, prefix, lower);
    var d := Reversed(ks[..u]);
    var r := ScanRevKeys(m, prefix, lower);
    forall i, j | 0 <= i < j < |r|
      ensures Below(r[j], r[i])
    {
      assert r[i] == d[i] == ks[u - 1 - i];
      assert r[j] == d[j] == ks[u - 1 - j];
      AscendingIndexOrder(ks, u - 1 - j, u - 1 - i);
    }
  }

  /** The entries a reverse scan yields: stored entries with the prefix, in descending key order. */
  ghost function ScanRev(m: map<Key, Value>, prefix: Key, lower: Option<Key>): (r: seq<Entry>)
    ensures forall e :: e in r ==> e.key in m && m[e.key] == e.value && HasPrefix(e.key, prefix)
    ensures forall i, j :: 0 <= i < j < |r| ==> Below(r[j].key, r[i].key)
  {
    var ks := ScanRevKeys(m, prefix, lower);
    ScanRevKeysDescending(m, prefix, lower);
    EntriesOf(m, ks)
  }

  /** The keys of `m` that have `prefix`. */
  ghost function WithPrefix(m: map<Key, Value>, prefix: Key): set<Key> {
    set k | k in m.Keys && HasPrefix(k, prefix)
  }

  /** The keys of `m` that have `prefix` and sort at or after `anchor`. */
  ghost function KeysFrom(m: map<Key, Value>, prefix: Key, anchor: Key): set<Key> {
    set k | k in m.Keys && HasPrefix(k, prefix) && AtOrBelow(anchor, k)
  }

  /** The keys of `m` that have `prefix` and sort at or before `last`. */
  ghost function KeysUpTo(m: map<Key, Value>, prefix: Key, last: Key): set<Key> {
    set k | k in m.Keys && HasPrefix(k, prefix) && AtOrBelow(k, last)
  }

  /** The key a lower-bound search for `anchor` lands on: the least key at or after it. */
  ghost function FirstAtOrAfter(m: map<Key, Value>, anchor: Key): (r: Option<Key>)
    ensures r.Some? ==> r.value in m && AtOrBelow(anchor, r.value)
    ensures r.Some? ==> forall k :: k in m && AtOrBelow(anchor, k) ==> AtOrBelow(r.value, k)
    ensures r.None? ==> forall k :: k in m ==> !AtOrBelow(anchor, k)
  {
    var above := set k | k in m.Keys && AtOrBelow(anchor, k);
    if above == {} then
      assert forall k :: k in m ==> k !in above;
      None
    else Some(Least(above))
  }

  /** The lower-bound search for `anchor` lands on a key that has `prefix`. */
  ghost predicate LandsInPrefix(m: map<Key, Value>, anchor: Key, prefix: Key) {
    FirstAtOrAfter(m, anchor).Some? && HasPrefix(FirstAtOrAfter(m, anchor).value, prefix)
  }

  /** In the ascending listing of the keys, the lower-bound position holds `FirstAtOrAfter`. */
  lemma LowerBoundLands(m: map<Key, Value>, anchor: Key)
    ensures var ks := Sorted(m.Keys); var i := LowerBoundIndex(ks, anchor);
      FirstAtOrAfter(m, anchor) == if i < |ks| then Some(ks[i]) else None
  {
    var ks := Sorted(m.Keys);
    var i := LowerBoundIndex(ks, anchor);
    var f := FirstAtOrAfter(m, anchor);
    if i < |ks| {
      assert ks[i] in m;
      var t :| 0 <= t < |ks| && ks[t] == f.value;
      if t < i {
        BelowAsymmetric(ks[t], anchor);
        BelowIrreflexive(anchor);
      }
      AscendingIndexOrder(ks, i, t);
      if f.value != ks[i] {
        BelowAsymmetric(ks[i], f.value);
      }
    } else if f.Some? {
      var t :| 0 <= t < |ks| && ks[t] == f.value;
      BelowAsymmetric(ks[t], anchor);
      BelowIrreflexive(anchor);
    }
  }

  /** A key a forward run visits has the prefix and sorts at or after the anchor. */
  lemma ForwardRunVisits(ks: seq<Key>, anchor: Key, prefix: Key, i: nat, n: nat, k: Key)
    requires Ascending(ks)
    requires i == LowerBoundIndex(ks, anchor) && i < |ks|
    requires n == PrefixRun(ks[i..], prefix)
    requires k in ks[i..i + n]
    ensures k in ks && HasPrefix(k, prefix) && AtOrBelow(anchor, k)
  {
    var t :| 0 <= t < n && ks[i..i + n][t] == k;
    assert ks[i..][t] == k;
    assert ks[i + t] == k;
    AscendingIndexOrder(ks, i, i + t);
    AtOrBelowTransitive(anchor, ks[i], k);
  }

  /** A forward run that starts on a key with the prefix visits every later key with the prefix. */
  lemma ForwardRunCovers(ks: seq<Key>, anchor: Key, prefix: Key, i: nat, n: nat, k: Key)
    requires Ascending(ks)
    requires i == LowerBoundIndex(ks, anchor) && i < |ks| && HasPrefix(ks[i], prefix)
    requires n == PrefixRun(ks[i..], prefix)
    requires k in ks && HasPrefix(k, prefix) && AtOrBelow(anchor, k)
    ensures k in ks[i..i + n]
  {
    var t :| 0 <= t < |ks| && ks[t] == k;
    assert i <= t by {
      if t < i {
        assert Below(ks[t], anchor);
        BelowAsymmetric(k, anchor);
        BelowIrreflexive(k);
      }
    }
    assert t < i + n by {
      if t >= i + n {
        assert ks[i..][n] == ks[i + n];
        AscendingIndexOrder(ks, i, i + n);
        AscendingIndexOrder(ks, i + n, t);
        PrefixConvex(prefix, ks[i], ks[i + n], k);
      }
    }
    assert ks[i..i + n][t - i] == k;
  }

  /** A forward run that starts on a key with the prefix holds exactly the later keys with the prefix. */
  lemma ForwardRunMember(m: map<Key, Value>, ks: seq<Key>, anchor: Key, prefix: Key, i: nat, n: nat, k: Key)
    requires Ascending(ks) && forall k :: k in ks <==> k in m
    requires i == LowerBoundIndex(ks, anchor) && i < |ks| && HasPrefix(ks[i], prefix)
    requires n == PrefixRun(ks[i..], prefix)
    ensures k in ks[i..i + n] <==> k in KeysFrom(m, prefix, anchor)
  {
    if k in ks[i..i + n] {
      ForwardRunVisits(ks, anchor, prefix, i, n, k);
    }
    if k in KeysFrom(m, prefix, anchor) {
      ForwardRunCovers(ks, anchor, prefix, i, n, k);
    }
  }

  /** A forward run that starts on a key with the prefix lists the later keys with the prefix. */
  lemma ForwardRunListing(m: map<Key, Value>, anchor: Key, prefix: Key, ks: seq<Key>, i: nat, n: nat)
    requires ks == Sorted(m.Keys)
    requires i == LowerBoundIndex(ks, anchor) && i < |ks| && HasPrefix(ks[i], prefix)
    requires n == PrefixRun(ks[i..], prefix)
    ensures ks[i..i + n] == Sorted(KeysFrom(m, prefix, anchor))
  {
    forall k
      ensures k in ks[i..i + n] <==> k in KeysFrom(m, prefix, anchor)
    {
      ForwardRunMember(m, ks, anchor, prefix, i, n, k);
    }
    AscendingSlice(ks, i, i + n);
    SortedIsAscendingListing(KeysFrom(m, prefix, anchor), ks[i..i + n]);
  }

  /**
   * What a forward scan yields: nothing when the lower-bound search for its
   * anchor lands on no key, or on a key without the prefix; otherwise every key
   * that has the prefix and sorts at or after the anchor, in ascending order.
   */
  lemma ScanKeysSpec(m: map<Key, Value>, prefix: Key, lower: Option<Key>)
    ensures LandsInPrefix(m, lower.GetOr(prefix), prefix) ==>
      ScanKeys(m, prefix, lower) ==
        Sorted(KeysFrom(m, prefix, lower.GetOr(prefix)))
    ensures !LandsInPrefix(m, lower.GetOr(prefix), prefix) ==> ScanKeys(m, prefix, lower) == []
  {
    var anchor := lower.GetOr(prefix);
    var ks := Sorted(m.Keys);
    var i := LowerBoundIndex(ks, anchor);
    var n := PrefixRun(ks[i..], prefix);
    assert ScanKeys(m, prefix, lower) == ks[i..i + n];
    LowerBoundLands(m, anchor);
    if LandsInPrefix(m, anchor, prefix) {
      ForwardRunListing(m, anchor, prefix, ks, i, n);
    } else if i < |ks| {
      assert ks[i..][0] == ks[i];
    }
  }

  /**
   * A forward scan without a lower bound yields exactly the keys that have the
   * prefix, in ascending order; it is empty when no key has the prefix.
   */
  lemma ScanPrefixGroup(m: map<Key, Value>, prefix: Key)
    ensures ScanKeys(m, prefix, None) == Sorted(WithPrefix(m, prefix))
  {
    ScanKeysSpec(m, prefix, None);
    var group := WithPrefix(m, prefix);
    var fromPrefix := KeysFrom(m, prefix, prefix);
    forall k | k in group
      ensures k in fromPrefix
    {
      PrefixSortsFirst(prefix, k);
    }
    assert group == fromPrefix;
    if !LandsInPrefix(m, prefix, prefix) {
      if k :| k in group {
        PrefixSortsFirst(prefix, k);
        var f := FirstAtOrAfter(m, prefix).value;
        assert HasPrefix(prefix, prefix);
        PrefixConvex(prefix, prefix, f, k);
        assert false;
      }
      assert group == {};
      SortedIsAscendingListing(group, []);
    }
  }

  /**
   * With the empty prefix and either no lower bound or the empty one, a forward
   * scan yields every entry, in ascending key order.
   */
  lemma ScanWholeStore(m: map<Key, Value>)
    ensures ScanKeys(m, [], None) == Sorted(m.Keys)
    ensures ScanKeys(m, [], Some([])) == Sorted(m.Keys)
  {
    ScanPrefixGroup(m, []);
    assert WithPrefix(m, []) == m.Keys;
    assert ScanKeys(m, [], Some([])) == ScanKeys(m, [], None);
  }

  /** Within an ascending listing, the prefix run from position `i` is fixed by its two ends and the key after it. */
  lemma PrefixRunBetween(ks: seq<Key>, p: Key, i: nat, n: nat)
    requires Ascending(ks) && i + n <= |ks|
    requires n > 0 ==> HasPrefix(ks[i], p) && HasPrefix(ks[i + n - 1], p)
    requires i + n < |ks| ==> !HasPrefix(ks[i + n], p)
    ensures PrefixRun(ks[i..], p) == n
  {
    forall j | 0 <= j < n
      ensures HasPrefix(ks[i..][j], p)
    {
      assert ks[i..][j] == ks[i + j];
      AscendingIndexOrder(ks, i, i + j);
      AscendingIndexOrder(ks, i + j, i + n - 1);
      PrefixConvex(p, ks[i], ks[i + j], ks[i + n - 1]);
    }
    if i + n < |ks| {
      assert ks[i..][n] == ks[i + n];
    }
    PrefixRunExact(ks[i..], p, n);
  }

  /** Read backwards from position `u` of an ascending listing, the prefix run is fixed by its two ends and the key before it. */
  lemma ReverseRunBetween(ks: seq<Key>, p: Key, u: nat, n: nat)
    requires Ascending(ks) && n <= u <= |ks|
    requires n > 0 ==> HasPrefix(ks[u - n], p) && HasPrefix(ks[u - 1], p)
    requires n < u ==> !HasPrefix(ks[u - 1 - n], p)
    ensures PrefixRun(Reversed(ks[..u]), p) == n
  {
    var d := Reversed(ks[..u]);
    forall j | 0 <= j < n
      ensures HasPrefix(d[j], p)
    {
      assert d[j] == ks[u - 1 - j];
      AscendingIndexOrder(ks, u - n, u - 1 - j);
      AscendingIndexOrder(ks, u - 1 - j, u - 1);
      PrefixConvex(p, ks[u - n], ks[u - 1 - j], ks[u - 1]);
    }
    if n < u {
      assert d[n] == ks[u - 1 - n];
    }
    PrefixRunExact(d, p, n);
  }

  /** Read backwards, a reverse run from position `u` is the slice of the listing just before `u`. */
  lemma ReverseRunSlice(ks: seq<Key>, prefix: Key, u: nat, n: nat)
    requires u <= |ks|
    requires n == PrefixRun(Reversed(ks[..u]), prefix)
    ensures n <= u
    ensures Reversed(Reversed(ks[..u])[..n]) == ks[u - n..u]
    ensures forall t :: u - n <= t < u ==> HasPrefix(ks[t], prefix)
    ensures n < u ==> !HasPrefix(ks[u - 1 - n], prefix)
  {
    var d := Reversed(ks[..u]);
    forall t | u - n <= t < u
      ensures HasPrefix(ks[t], prefix)
    {
      assert d[u - 1 - t] == ks[t];
    }
    if n < u {
      assert d[n] == ks[u - 1 - n];
    }
  }

  /** A key in the slice `ks[a..b]` sits at some position from `a` up to `b`. */
  lemma SlicePosition(ks: seq<Key>, a: nat, b: nat, k: Key) returns (t: nat)
    requires a <= b <= |ks| && k in ks[a..b]
    ensures a <= t < b && ks[t] == k
  {
    var j :| 0 <= j < b - a && ks[a..b][j] == k;
    t := a + j;
  }

  /** The key at a position from `a` up to `b` is in the slice `ks[a..b]`. */
  lemma PositionInSlice(ks: seq<Key>, a: nat, b: nat, t: nat)
    requires a <= t < b <= |ks|
    ensures ks[t] in ks[a..b]
  {
    assert ks[a..b][t - a] == ks[t];
  }

  /** Without a lower bound, a reverse run reaches every key with the prefix. */
  lemma ReverseGroupCovers(ks: seq<Key>, prefix: Key, u: nat, n: nat, t: nat)
    requires Ascending(ks)
    requires u == ReverseEnd(ks, prefix, None)
    requires n == PrefixRun(Reversed(ks[..u]), prefix)
    requires t < |ks| && HasPrefix(ks[t], prefix)
    ensures n <= u && u - n <= t < u
  {
    ReverseRunSlice(ks, prefix, u, n);
    var k := ks[t];
    NextPrefixBounds(prefix, k);
    assert t < u by {
      if t >= u {
        var np := NextPrefix(prefix).value;
        AscendingIndexOrder(ks, u, t);
        AtOrBelowTransitive(np, ks[u], k);
        BelowAsymmetric(k, np);
      }
    }
    assert u - n <= t by {
      if t < u - n {
        var c := ks[u - 1 - n];
        AscendingIndexOrder(ks, t, u - 1 - n);
        AtOrBelowTransitive(prefix, k, c);
        NextPrefixBounds(prefix, c);
      }
    }
  }

  /** Without a lower bound, a reverse run covers exactly the keys with the prefix. */
  lemma ReverseGroupMember(ks: seq<Key>, prefix: Key, u: nat, n: nat, k: Key)
    requires Ascending(ks)
    requires u == ReverseEnd(ks, prefix, None)
    requires n == PrefixRun(Reversed(ks[..u]), prefix)
    ensures n <= u
    ensures k in ks[u - n..u] <==> k in ks && HasPrefix(k, prefix)
  {
    ReverseRunSlice(ks, prefix, u, n);
    if k in ks[u - n..u] {
      var t := SlicePosition(ks, u - n, u, k);
    }
    if k in ks && HasPrefix(k, prefix) {
      var t :| 0 <= t < |ks| && ks[t] == k;
      ReverseGroupCovers(ks, prefix, u, n, t);
      PositionInSlice(ks, u - n, u, t);
    }
  }

  /** With a lower bound landing on a key with the prefix, a reverse run reaches every earlier key with the prefix. */
  lemma ReverseFromCovers(ks: seq<Key>, prefix: Key, i: nat, n: nat, t: nat)
    requires Ascending(ks)
    requires i < |ks| && HasPrefix(ks[i], prefix)
    requires n == PrefixRun(Reversed(ks[..i + 1]), prefix)
    requires t <= i && HasPrefix(ks[t], prefix)
    ensures n <= i + 1 && i + 1 - n <= t
  {
    var u := i + 1;
    ReverseRunSlice(ks, prefix, u, n);
    if t < u - n {
      AscendingIndexOrder(ks, t, u - 1 - n);
      AscendingIndexOrder(ks, u - 1 - n, i);
      PrefixConvex(prefix, ks[t], ks[u - 1 - n], ks[i]);
    }
  }

  /** With a lower bound landing on a key with the prefix, a reverse run covers the keys with the prefix up to it. */
  lemma ReverseFromMember(ks: seq<Key>, prefix: Key, i: nat, n: nat, k: Key)
    requires Ascending(ks)
    requires i < |ks| && HasPrefix(ks[i], prefix)
    requires n == PrefixRun(Reversed(ks[..i + 1]), prefix)
    ensures n <= i + 1
    ensures k in ks[i + 1 - n..i + 1] <==> k in ks && HasPrefix(k, prefix) && AtOrBelow(k, ks[i])
  {
    var u := i + 1;
    ReverseRunSlice(ks, prefix, u, n);
    if k in ks[u - n..u] {
      var t := SlicePosition(ks, u - n, u, k);
      AscendingIndexOrder(ks, t, i);
    }
    if k in ks && HasPrefix(k, prefix) && AtOrBelow(k, ks[i]) {
      var t :| 0 <= t < |ks| && ks[t] == k;
      AscendingIndexOrder(ks, t, i);
      ReverseFromCovers(ks, prefix, i, n, t);
      PositionInSlice(ks, u - n, u, t);
    }
  }

  /** Without a lower bound, a reverse scan read backwards lists the keys with the prefix. */
  lemma ReverseGroupListing(m: map<Key, Value>, prefix: Key)
    ensures Reversed(ScanRevKeys(m, prefix, None)) == Sorted(WithPrefix(m, prefix))
  {
    var ks := Sorted(m.Keys);
    var u := ReverseEnd(ks, prefix, None);
    var n := PrefixRun(Reversed(ks[..u]), prefix);
    assert ScanRevKeys(m, prefix, None) == Reversed(ks[..u])[..n];
    ReverseRunSlice(ks, prefix, u, n);
    var want := WithPrefix(m, prefix);
    AscendingSlice(ks, u - n, u);
    forall k
      ensures k in ks[u - n..u] <==> k in want
    {
      ReverseGroupMember(ks, prefix, u, n, k);
    }
    SortedIsAscendingListing(want, ks[u - n..u]);
  }

  /** With a lower bound landing on a key with the prefix, a reverse scan read backwards lists the keys with the prefix up to that key. */
  lemma ReverseFromListing(m: map<Key, Value>, prefix: Key, l: Key)
    requires LandsInPrefix(m, l, prefix)
    ensures Reversed(ScanRevKeys(m, prefix, Some(l))) ==
      Sorted(KeysUpTo(m, prefix, FirstAtOrAfter(m, l).value))
  {
    var ks := Sorted(m.Keys);
    var i := LowerBoundIndex(ks, l);
    LowerBoundLands(m, l);
    var u := ReverseEnd(ks, prefix, Some(l));
    assert u == i + 1;
    var n := PrefixRun(Reversed(ks[..u]), prefix);
    assert ScanRevKeys(m, prefix, Some(l)) == Reversed(ks[..u])[..n];
    ReverseRunSlice(ks, prefix, u, n);
    var want := KeysUpTo(m, prefix, ks[i]);
    AscendingSlice(ks, u - n, u);
    forall k
      ensures k in ks[u - n..u] <==> k in want
    {
      ReverseFromMember(ks, prefix, i, n, k);
    }
    SortedIsAscendingListing(want, ks[u - n..u]);
  }

  /**
   * What a reverse scan yields, read backwards: without a lower bound, every key
   * with the prefix; with one, nothing when the lower-bound search lands on no
   * key or on a key without the prefix, and otherwise every key with the prefix
   * that sorts at or before the key it lands on.
   */
  lemma ScanRevKeysSpec(m: map<Key, Value>, prefix: Key, lower: Option<Key>)
    ensures lower.None? ==>
      Reversed(ScanRevKeys(m, prefix, lower)) == Sorted(WithPrefix(m, prefix))
    ensures lower.Some? && LandsInPrefix(m, lower.value, prefix) ==>
      Reversed(ScanRevKeys(m, prefix, lower)) ==
        Sorted(KeysUpTo(m, prefix, FirstAtOrAfter(m, lower.value).value))
    ensures lower.Some? && !LandsInPrefix(m, lower.value, prefix) ==> ScanRevKeys(m, prefix, lower) == []
  {
    match lower {
      case None =>
        ReverseGroupListing(m, prefix);
      case Some(l) =>
        if LandsInPrefix(m, l, prefix) {
          ReverseFromListing(m, prefix, l);
        } else {
          var ks := Sorted(m.Keys);
          var i := LowerBoundIndex(ks, l);
          LowerBoundLands(m, l);
          var u := ReverseEnd(ks, prefix, lower);
          var d := Reversed(ks[..u]);
          assert ScanRevKeys(m, prefix, lower) == d[..PrefixRun(d, prefix)];
          if i < |ks| {
            assert d[0] == ks[i];
          }
        }
    }
  }

  /**
   * Without a lower bound, a reverse scan yields exactly the entries of the
   * forward scan with the same prefix, in the opposite order; with the empty
   * prefix, that is every entry in descending key order.
   */
  lemma ScanRevMirrorsScan(m: map<Key, Value>, prefix: Key)
    ensures ScanRevKeys(m, prefix, None) == Reversed(ScanKeys(m, prefix, None))
    ensures ScanRev(m, prefix, None) == Reversed(Scan(m, prefix, None))
  {
    ScanRevKeysSpec(m, prefix, None);
    ScanPrefixGroup(m, prefix);
    ReversedTwice(ScanRevKeys(m, prefix, None));
    EntriesOfReversed(m, ScanKeys(m, prefix, None));
  }
}
