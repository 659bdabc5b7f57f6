/**
 * The store's test scenarios, stated over the model.
 *
 * Hex strings of the scenarios are byte strings: "2211" is the key
 * [0x22, 0x11]. The scan scenarios share one fixture of eight entries; the
 * lemmas about it first fix its ascending listing and then locate each scan in
 * that listing. The scenario methods drive a fresh store through the same calls
 * and check what every call returns.
 */
module Scenarios {
  import opened Wrappers
  import opened KeyOrder
  import opened SortedKeys
  import opened Scans
  import opened Neighbours
  import opened Accounting
  import opened Store

  /** The entries the scan scenarios write, in the order they are written. */
  const FIXTURE: seq<Entry> := [
    Entry([], [0x12]),
    Entry([0x22], []),
    Entry([0x22, 0x11], [0x34]),
    Entry([0x22, 0x33], [0x18]),
    Entry([0x44], [0x76]),
    Entry([0x44, 0x00], [0x11, 0x22, 0x33]),
    Entry([0x44, 0x01], [0x33, 0x22, 0x11]),
    Entry([0x44, 0x02], [0x78, 0x04])
  ]

  /** The store the fixture leaves behind. */
  const FIXTURE_MAP: map<Key, Value> := map[
    [] := [0x12],
    [0x22] := [],
    [0x22, 0x11] := [0x34],
    [0x22, 0x33] := [0x18],
    [0x44] := [0x76],
    [0x44, 0x00] := [0x11, 0x22, 0x33],
    [0x44, 0x01] := [0x33, 0x22, 0x11],
    [0x44, 0x02] := [0x78, 0x04]
  ]

  /** The fixture's keys in ascending order. */
  const LISTING: seq<Key> := [[], [0x22], [0x22, 0x11], [0x22, 0x33], [0x44], [0x44, 0x00], [0x44, 0x01], [0x44, 0x02]]

  /** A sequence whose neighbours are in order is ascending. */
  lemma {:induction false} AscendingByNeighbours(s: seq<Key>)
    requires forall i :: 0 <= i < |s| - 1 ==> Below(s[i], s[i + 1])
    ensures Ascending(s)
  {
    forall i, j | 0 <= i < j < |s|
      ensures Below(s[i], s[j])
    {
      var t := i + 1;
      while t < j
        invariant i < t <= j && Below(s[i], s[t])
      {
        BelowTransitive(s[i], s[t], s[t + 1]);
        t := t + 1;
      }
    }
  }

  /** Writing one more entry of a batch updates the store at its key. */
  lemma WriteOneMore(m: map<Key, Value>, kvs: seq<Entry>, k: nat)
    requires k < |kvs|
    ensures ApplySets(m, kvs[..k + 1]) == ApplySets(m, kvs[..k])[kvs[k].key := kvs[k].value]
  {
    assert kvs[..k + 1][..k] == kvs[..k];
  }

  /** Writing the fixture into an empty store gives the fixture's store. */
  lemma FixtureWritten()
    ensures ApplySets(map[], FIXTURE) == FIXTURE_MAP
  {
    assert FIXTURE[..0] == [];
    WriteOneMore(map[], FIXTURE, 0);
    WriteOneMore(map[], FIXTURE, 1);
    WriteOneMore(map[], FIXTURE, 2);
    WriteOneMore(map[], FIXTURE, 3);
    WriteOneMore(map[], FIXTURE, 4);
    WriteOneMore(map[], FIXTURE, 5);
    WriteOneMore(map[], FIXTURE, 6);
    WriteOneMore(map[], FIXTURE, 7);
    assert FIXTURE[..8] == FIXTURE;
  }

  /** The fixture's store is listed, in ascending key order, as `LISTING`. */
  lemma FixtureListing()
    ensures Sorted(FIXTURE_MAP.Keys) == LISTING
  {
    AscendingByNeighbours(LISTING);
    SortedIsAscendingListing(FIXTURE_MAP.Keys, LISTING);
  }

  /** The entries at a run of keys are the matching run of the entries. */
  lemma EntriesOfSlice(m: map<Key, Value>, ks: seq<Key>, a: nat, b: nat)
    requires a <= b <= |ks| && forall k :: k in ks ==> k in m
    ensures forall k :: k in ks[a..b] ==> k in m
    ensures EntriesOf(m, ks[a..b]) == EntriesOf(m, ks)[a..b]
  {
    assert forall k :: k in ks[a..b] ==> k in ks;
    var l, r := EntriesOf(m, ks[a..b]), EntriesOf(m, ks)[a..b];
    forall j | 0 <= j < |l|
      ensures l[j] == r[j]
    {
      assert ks[a..b][j] == ks[a + j];
    }
  }

  /** The entries at the keys `ks` are `es` when each entry of `es` is the stored entry at the key in the same position. */
  lemma EntriesOfListed(m: map<Key, Value>, ks: seq<Key>, es: seq<Entry>)
    requires |ks| == |es|
    requires forall j :: 0 <= j < |ks| ==> ks[j] in m && es[j] == Entry(ks[j], m[ks[j]])
    ensures forall k :: k in ks ==> k in m
    ensures EntriesOf(m, ks) == es
  {
  }

  /** The fixture's `j`-th write is the `j`-th key of the listing with its stored value. */
  lemma FixtureAt(j: nat)
    requires j < |LISTING|
    ensures LISTING[j] in FIXTURE_MAP && FIXTURE[j] == Entry(LISTING[j], FIXTURE_MAP[LISTING[j]])
  {
    if j == 0 {
    } else if j == 1 {
    } else if j == 2 {
    } else if j == 3 {
    } else if j == 4 {
    } else if j == 5 {
    } else if j == 6 {
    } else {
    }
  }

  /** Read in ascending key order, the fixture's store holds exactly the fixture's entries. */
  lemma FixtureEntries()
    ensures forall k :: k in LISTING ==> k in FIXTURE_MAP
    ensures EntriesOf(FIXTURE_MAP, LISTING) == FIXTURE
  {
    forall j | 0 <= j < |LISTING|
      ensures LISTING[j] in FIXTURE_MAP && FIXTURE[j] == Entry(LISTING[j], FIXTURE_MAP[LISTING[j]])
    {
      FixtureAt(j);
    }
    EntriesOfListed(FIXTURE_MAP, LISTING, FIXTURE);
  }

  /** A key whose first byte differs from a non-empty prefix's first byte, or the empty key, lacks that prefix. */
  lemma LacksPrefix(k: Key, p: Key)
    requires |p| > 0 && (|k| == 0 || k[0] != p[0])
    ensures !HasPrefix(k, p)
  {
    if |p| <= |k| {
      assert k[..|p|][0] != p[0];
    }
  }

  /** A forward scan of the fixture yields the run of `n` fixture entries from position `i`, given the keys around the run. */
  lemma FixtureScan(prefix: Key, lower: Option<Key>, i: nat, n: nat)
    requires i + n <= |LISTING|
    requires i > 0 ==> Below(LISTING[i - 1], lower.GetOr(prefix))
    requires i < |LISTING| ==> AtOrBelow(lower.GetOr(prefix), LISTING[i])
    requires n > 0 ==> HasPrefix(LISTING[i], prefix) && HasPrefix(LISTING[i + n - 1], prefix)
    requires i + n < |LISTING| ==> !HasPrefix(LISTING[i + n], prefix)
    ensures Scan(FIXTURE_MAP, prefix, lower) == FIXTURE[i..i + n]
  {
    FixtureListing();
    FixtureEntries();
    ScanKeysAt(FIXTURE_MAP, prefix, lower, LISTING, i, n);
    EntriesOfSlice(FIXTURE_MAP, LISTING, i, i + n);
  }

  /**
   * `u` keys of the fixture's listing lie at or before the key a reverse scan
   * starts from: the lower-bound search for `lower` lands on position `u - 1`,
   * or, without a lower bound, `NextPrefix(prefix)` falls between positions
   * `u - 1` and `u` (u is the whole listing when there is no next prefix).
   */
  ghost predicate FixtureReverseEnd(prefix: Key, lower: Option<Key>, u: nat) {
    u <= |LISTING| &&
    match lower
    case Some(l) => 0 < u && (u > 1 ==> Below(LISTING[u - 2], l)) && AtOrBelow(l, LISTING[u - 1])
    case None =>
      match NextPrefix(prefix)
      case None => u == |LISTING|
      case Some(np) => (u > 0 ==> Below(LISTING[u - 1], np)) && (u < |LISTING| ==> AtOrBelow(np, LISTING[u]))
  }

  /** The position `FixtureReverseEnd` names is the one the reverse scan computes. */
  lemma FixtureReverseEndIs(prefix: Key, lower: Option<Key>, u: nat)
    requires FixtureReverseEnd(prefix, lower, u)
    ensures u == ReverseEnd(LISTING, prefix, lower)
  {
    FixtureListing();
    match lower {
      case Some(l) =>
        LowerBoundIndexAt(LISTING, l, u - 1);
      case None =>
        if NextPrefix(prefix).Some? {
          LowerBoundIndexAt(LISTING, NextPrefix(prefix).value, u);
        }
    }
  }

  /** A reverse scan of the fixture yields, backwards, the run of `n` fixture entries that ends just before position `u`. */
  lemma FixtureScanRev(prefix: Key, lower: Option<Key>, u: nat, n: nat)
    requires FixtureReverseEnd(prefix, lower, u) && n <= u
    requires n > 0 ==> HasPrefix(LISTING[u - n], prefix) && HasPrefix(LISTING[u - 1], prefix)
    requires n < u ==> !HasPrefix(LISTING[u - 1 - n], prefix)
    ensures ScanRev(FIXTURE_MAP, prefix, lower) == Reversed(FIXTURE[u - n..u])
  {
    FixtureListing();
    FixtureEntries();
    FixtureReverseEndIs(prefix, lower, u);
    ScanRevKeysAt(FIXTURE_MAP, prefix, lower, LISTING, u, n);
    EntriesOfSlice(FIXTURE_MAP, LISTING, u - n, u);
    EntriesOfReversed(FIXTURE_MAP, LISTING[u - n..u]);
  }

  /** With no prefix and no lower bound, a forward scan yields the whole fixture in ascending order. */
  lemma ScanAll()
    ensures Scan(FIXTURE_MAP, [], None) == FIXTURE
  {
    FixtureScan([], None, 0, 8);
  }

  /** With no prefix and the empty lower bound, a forward scan yields the whole fixture in ascending order. */
  lemma ScanAllFromEmpty()
    ensures Scan(FIXTURE_MAP, [], Some([])) == FIXTURE
  {
    FixtureScan([], Some([]), 0, 8);
  }

  /** With no prefix, a scan from "221100" starts at "2233", the first key after it, and runs to the last key. */
  lemma ScanFrom221100()
    ensures Scan(FIXTURE_MAP, [], Some([0x22, 0x11, 0x00])) == FIXTURE[3..]
  {
    FixtureScan([], Some([0x22, 0x11, 0x00]), 3, 5);
  }

  /** With no prefix, a scan from "2233" starts at that key and runs to the last key. */
  lemma ScanFrom2233()
    ensures Scan(FIXTURE_MAP, [], Some([0x22, 0x33])) == FIXTURE[3..]
  {
    FixtureScan([], Some([0x22, 0x33]), 3, 5);
  }

  /** Prefix "22" without a lower bound yields the keys "22", "2211" and "2233". */
  lemma ScanPrefix22()
    ensures Scan(FIXTURE_MAP, [0x22], None) == FIXTURE[1..4]
  {
    LacksPrefix(LISTING[4], [0x22]);
    FixtureScan([0x22], None, 1, 3);
  }

  /** Prefix "22" from "2211" yields "2211" and "2233". */
  lemma ScanPrefix22From2211()
    ensures Scan(FIXTURE_MAP, [0x22], Some([0x22, 0x11])) == FIXTURE[2..4]
  {
    LacksPrefix(LISTING[4], [0x22]);
    FixtureScan([0x22], Some([0x22, 0x11]), 2, 2);
  }

  /** Prefix "22" from "2234" yields nothing: the search lands on "44". */
  lemma ScanPrefix22From2234()
    ensures Scan(FIXTURE_MAP, [0x22], Some([0x22, 0x34])) == []
  {
    LacksPrefix(LISTING[4], [0x22]);
    FixtureScan([0x22], Some([0x22, 0x34]), 4, 0);
  }

  /** Prefix "33" yields nothing: no key has it. */
  lemma ScanPrefix33()
    ensures Scan(FIXTURE_MAP, [0x33], None) == []
  {
    LacksPrefix(LISTING[4], [0x33]);
    FixtureScan([0x33], None, 4, 0);
  }

  /** Prefix "44" from "223300" yields the "44" group: the lower bound is searched over the whole key order and lands on "44". */
  lemma ScanPrefix44From223300()
    ensures Scan(FIXTURE_MAP, [0x44], Some([0x22, 0x33, 0x00])) == FIXTURE[4..]
  {
    FixtureScan([0x44], Some([0x22, 0x33, 0x00]), 4, 4);
  }

  /** Prefix "44" from "2233" yields nothing: the search lands on "2233", which lacks the prefix, although "44" keys follow. */
  lemma ScanPrefix44From2233()
    ensures Scan(FIXTURE_MAP, [0x44], Some([0x22, 0x33])) == []
  {
    LacksPrefix(LISTING[3], [0x44]);
    FixtureScan([0x44], Some([0x22, 0x33]), 3, 0);
  }

  /** With no prefix and no lower bound, a reverse scan yields the whole fixture in descending order. */
  lemma ScanRevAll()
    ensures ScanRev(FIXTURE_MAP, [], None) == Reversed(FIXTURE)
  {
    assert FIXTURE[8 - 8..8] == FIXTURE;
    FixtureScanRev([], None, 8, 8);
  }

  /** With no prefix, a reverse scan from "4402", the last key, yields the whole fixture in descending order. */
  lemma ScanRevFrom4402()
    ensures ScanRev(FIXTURE_MAP, [], Some([0x44, 0x02])) == Reversed(FIXTURE)
  {
    assert FIXTURE[8 - 8..8] == FIXTURE;
    FixtureScanRev([], Some([0x44, 0x02]), 8, 8);
  }

  /** With no prefix, a reverse scan from "44" yields "44" and every key before it, in descending order. */
  lemma ScanRevFrom44()
    ensures ScanRev(FIXTURE_MAP, [], Some([0x44])) == Reversed(FIXTURE[..5])
  {
    FixtureScanRev([], Some([0x44]), 5, 5);
  }

  /** Prefix "22" without a lower bound yields the "22" group in descending order, starting just before "23". */
  lemma ScanRevPrefix22()
    ensures ScanRev(FIXTURE_MAP, [0x22], None) == Reversed(FIXTURE[1..4])
  {
    assert NextPrefix([0x22]) == Some([0x23]);
    LacksPrefix(LISTING[0], [0x22]);
    FixtureScanRev([0x22], None, 4, 3);
  }

  /** Prefix "22" from "2233" yields "2233", "2211" and "22". */
  lemma ScanRevPrefix22From2233()
    ensures ScanRev(FIXTURE_MAP, [0x22], Some([0x22, 0x33])) == Reversed(FIXTURE[1..4])
  {
    LacksPrefix(LISTING[0], [0x22]);
    FixtureScanRev([0x22], Some([0x22, 0x33]), 4, 3);
  }

  /** Prefix "22" from "2234" yields nothing: the search lands on "44", which lacks the prefix. */
  lemma ScanRevPrefix22From2234()
    ensures ScanRev(FIXTURE_MAP, [0x22], Some([0x22, 0x34])) == []
  {
    LacksPrefix(LISTING[4], [0x22]);
    FixtureScanRev([0x22], Some([0x22, 0x34]), 5, 0);
  }

  /** Prefix "33" yields nothing: the key before "34" is "2233", which lacks the prefix. */
  lemma ScanRevPrefix33()
    ensures ScanRev(FIXTURE_MAP, [0x33], None) == []
  {
    LacksPrefix(LISTING[3], [0x33]);
    FixtureScanRev([0x33], None, 4, 0);
  }

  /** The entries the next-prefix scenario writes: "00FFFF", then "01" and "0100", which lie past the "00FFFF" range. */
  const CARRY_FIXTURE: seq<Entry> := [
    Entry([0x00, 0xFF, 0xFF], [0x10]),
    Entry([0x01], [0x20]),
    Entry([0x01, 0x00], [0x30])
  ]

  /** The store the next-prefix fixture leaves behind. */
  const CARRY_MAP: map<Key, Value> := map[
    [0x00, 0xFF, 0xFF] := [0x10],
    [0x01] := [0x20],
    [0x01, 0x00] := [0x30]
  ]

  /** The next-prefix fixture's keys in ascending order. */
  const CARRY_LISTING: seq<Key> := [[0x00, 0xFF, 0xFF], [0x01], [0x01, 0x00]]

  /** Writing the next-prefix fixture gives its store, listed as `CARRY_LISTING`. */
  lemma CarryListing()
    ensures ApplySets(map[], CARRY_FIXTURE) == CARRY_MAP
    ensures Sorted(CARRY_MAP.Keys) == CARRY_LISTING
  {
    assert CARRY_FIXTURE[..0] == [];
    WriteOneMore(map[], CARRY_FIXTURE, 0);
    WriteOneMore(map[], CARRY_FIXTURE, 1);
    WriteOneMore(map[], CARRY_FIXTURE, 2);
    assert CARRY_FIXTURE[..3] == CARRY_FIXTURE;
    AscendingByNeighbours(CARRY_LISTING);
    SortedIsAscendingListing(CARRY_MAP.Keys, CARRY_LISTING);
  }

  /**
   * The next prefix of "00FFFF" carries into "01", so a reverse scan with
   * prefix "00FFFF" starts just before "01" and yields "00FFFF" alone, not
   * "01" or "0100".
   */
  lemma ScanRevCarry()
    ensures NextPrefix([0x00, 0xFF, 0xFF]) == Some([0x01])
    ensures ScanRev(CARRY_MAP, [0x00, 0xFF, 0xFF], None) == CARRY_FIXTURE[..1]
  {
    var p: Key := [0x00, 0xFF, 0xFF];
    assert p[..2] == [0x00, 0xFF] && p[..2][..1] == [0x00];
    CarryListing();
    LowerBoundIndexAt(CARRY_LISTING, [0x01], 1);
    assert p[..1][..0] + [p[..1][0] + 1] == [0x01];
    assert NextPrefix(p[..1]) == Some([0x01]);
    assert NextPrefix(p[..2]) == Some([0x01]);
    assert NextPrefix(p) == Some([0x01]);
    ScanRevKeysAt(CARRY_MAP, p, None, CARRY_LISTING, 1, 1);
    var ks := Reversed(CARRY_LISTING[0..1]);
    assert ks == [CARRY_LISTING[0]];
    EntriesOfListed(CARRY_MAP, ks, CARRY_FIXTURE[..1]);
  }

  /** Erasing a key created just before a write to another key leaves only that other write. */
  lemma EraseAfterOtherWrite(m: map<Key, Value>, k: Key, v: Value, j: Key, w: Value)
    requires k !in m && k != j
    ensures m[k := v][j := w] - {k} == m[j := w]
  {
  }

  /** Gets, sets and erases on the empty key, on a store that starts empty. */
  method BasicEmptyKey(st: KvStore) returns (seen: seq<Option<Value>>)
    requires st.Valid() && st.kv == map[]
    modifies st
    ensures st.Valid() && st.kv == map[[] := [0x12, 0x34]]
    ensures seen == [None, Some([]), Some([0x12, 0x34])]
  {
    var g0 := st.Get(KV_RAM, []);
    var w := st.Set(KV_RAM, [], []);
    var g1 := st.Get(KV_RAM, []);
    w := st.Set(KV_RAM, [], [0x12, 0x34]);
    var g2 := st.Get(KV_RAM, []);
    seen := [g0.value, g1.value, g2.value];
  }

  /** A write to "00" and an erase of the absent key "02". */
  method BasicAbsentErase(st: KvStore) returns (seen: seq<Option<Value>>)
    requires st.Valid() && st.kv == map[[] := [0x12, 0x34]]
    modifies st
    ensures st.Valid() && st.kv == map[[] := [0x12, 0x34], [0x00] := [0xAA, 0xBB, 0xCC, 0xDD]]
    ensures seen == [None, Some([0xAA, 0xBB, 0xCC, 0xDD]), None, None]
  {
    var g3 := st.Get(KV_RAM, [0x00]);
    var w := st.Set(KV_RAM, [0x00], [0xAA, 0xBB, 0xCC, 0xDD]);
    var g4 := st.Get(KV_RAM, [0x00]);
    var g5 := st.Get(KV_RAM, [0x02]);
    w := st.Erase(KV_RAM, [0x02]);
    var g6 := st.Get(KV_RAM, [0x02]);
    seen := [g3.value, g4.value, g5.value, g6.value];
  }

  /** A write to "02", a write to "01020304" and an erase of "02". */
  method BasicEraseOne(st: KvStore) returns (seen: seq<Option<Value>>)
    requires st.Valid() && st.kv == map[[] := [0x12, 0x34], [0x00] := [0xAA, 0xBB, 0xCC, 0xDD]]
    modifies st
    ensures st.Valid() && st.kv == old(st.kv)[[0x01, 0x02, 0x03, 0x04] := [0xAA, 0xBB, 0xCC, 0xDD, 0xEE]]
    ensures seen == [Some([0x42]), None]
  {
    var w := st.Set(KV_RAM, [0x02], [0x42]);
    var g7 := st.Get(KV_RAM, [0x02]);
    var g8 := st.Get(KV_RAM, [0x01, 0x02, 0x03, 0x04]);
    w := st.Set(KV_RAM, [0x01, 0x02, 0x03, 0x04], [0xAA, 0xBB, 0xCC, 0xDD, 0xEE]);
    EraseAfterOtherWrite(old(st.kv), [0x02], [0x42], [0x01, 0x02, 0x03, 0x04], [0xAA, 0xBB, 0xCC, 0xDD, 0xEE]);
    w := st.Erase(KV_RAM, [0x02]);
    seen := [g7.value, g8.value];
  }

  /**
   * Gets, sets and erases on one store: the empty key and the empty value are
   * ordinary, overwriting replaces, erasing an absent key changes nothing, and
   * erasing one key leaves the others. `seen` holds what each get returns.
   */
  method BasicScenario() returns (seen: seq<Option<Value>>)
    ensures seen == [
      None, Some([]), Some([0x12, 0x34]),
      None, Some([0xAA, 0xBB, 0xCC, 0xDD]),
      None, None, Some([0x42]),
      None,
      Some([0xAA, 0xBB, 0xCC, 0xDD, 0xEE]), Some([0x12, 0x34]), Some([0xAA, 0xBB, 0xCC, 0xDD]), None,
      Some([0xAA, 0xBB, 0xCC, 0xDD, 0xEE])
    ]
  {
    var st := new KvStore(0);
    var first := BasicEmptyKey(st);
    var second := BasicAbsentErase(st);
    var third := BasicEraseOne(st);
    var g9 := st.Get(KV_RAM, [0x01, 0x02, 0x03, 0x04]);
    var g10 := st.Get(KV_RAM, []);
    var g11 := st.Get(KV_RAM, [0x00]);
    var g12 := st.Get(KV_RAM, [0x02]);
    var g13 := st.Get(KV_RAM, [0x01, 0x02, 0x03, 0x04]);
    seen := first + second + third + [g9.value, g10.value, g11.value, g12.value, g13.value];
  }

  /**
   * The usage counter through a get, a create, two overwrites and an erase of
   * key "11": a get is free, the create costs the entry overhead plus the key
   * and value lengths, an overwrite charges the change in value length, and the
   * erase refunds the entry's whole cost.
   */
  method RamUsageScenario(base: int) returns (usages: seq<int>)
    ensures usages == [base, base, base + 113, base + 115, base + 114, base]
  {
    var st := new KvStore(base);
    var u0 := st.usage;
    var g := st.Get(KV_RAM, [0x11]);
    var u1 := st.usage;
    var w := st.Set(KV_RAM, [0x11], []);
    var u2 := st.usage;
    w := st.Set(KV_RAM, [0x11], [0x12, 0x34]);
    var u3 := st.usage;
    w := st.Set(KV_RAM, [0x11], [0x12]);
    var u4 := st.usage;
    w := st.Erase(KV_RAM, [0x11]);
    var u5 := st.usage;
    usages := [u0, u1, u2, u3, u4, u5];
  }

  /**
   * Writes "22" -> "12" (by a batch write beforehand, by a write in the same
   * run, or both), positions a cursor on it, erases it and, when `reinsert`,
   * writes it again. The cursor is left stale either way.
   */
  method EraseUnderCursor(st: KvStore, preinserted: bool, insert: bool, reinsert: bool) returns (c: Cursor)
    requires st.Valid() && st.kv == map[]
    requires preinserted || insert
    modifies st
    ensures st.Valid() && st.Stale(c)
    ensures st.kv == if reinsert then map[[0x22] := [0x12]] else map[]
  {
    var w;
    if preinserted {
      w := st.SetMany(KV_RAM, [Entry([0x22], [0x12])]);
    }
    if insert {
      w := st.Set(KV_RAM, [0x22], [0x12]);
    }
    assert [0x22] in st.kv;
    FirstAtOrAfterPresent(st.kv, [0x22]);
    c := st.LowerBound([0x22]);
    w := st.Erase(KV_RAM, [0x22]);
    if reinsert {
      w := st.Set(KV_RAM, [0x22], [0x12]);
    }
  }

  /**
   * A cursor on key "22" outlives the entry: after the entry is erased,
   * stepping or reading the cursor fails with "Iterator to erased element",
   * also when the key has been written again since, while its status reports
   * `Erased` without failing. A new cursor sees the store as it now is.
   */
  method ErasedCursorScenario(preinserted: bool, insert: bool, reinsert: bool)
    returns (next: Result<Cursor, KvError>, prev: Result<Cursor, KvError>,
             key: Result<Option<Key>, KvError>, value: Result<Option<Value>, KvError>,
             status: CursorStatus, reread: Result<Option<Value>, KvError>)
    requires preinserted || insert
    ensures next == Failure(IteratorErased) && prev == Failure(IteratorErased)
    ensures key == Failure(IteratorErased) && value == Failure(IteratorErased)
    ensures status == Erased
    ensures reread == Success(if reinsert then Some([0x12]) else None)
  {
    var st := new KvStore(0);
    var c := EraseUnderCursor(st, preinserted, insert, reinsert);
    next := st.Next(c);
    prev := st.Prev(c);
    key := st.CursorKey(c);
    value := st.CursorValue(c);
    status := st.Status(c);
    if reinsert {
      FirstAtOrAfterPresent(st.kv, [0x22]);
    }
    var again := st.LowerBound([0x22]);
    reread := st.CursorValue(again);
  }

  /**
   * Only the RAM database is served: opening a cursor on any other database
   * fails with "Bad key-value database ID", and so does every read or write.
   */
  method DatabaseIdScenario() returns (bad: Result<Cursor, KvError>, good: Result<Cursor, KvError>)
    ensures bad.Failure? && bad.error.Message() == "Bad key-value database ID"
    ensures good == Success(End)
  {
    var st := new KvStore(0);
    bad := st.OpenCursor("oops");
    good := st.OpenCursor(KV_RAM);
  }

  /** Fills an empty store with the fixture in one batch write. */
  method FillFixture(st: KvStore)
    requires st.Valid() && st.kv == map[]
    modifies st
    ensures st.Valid() && st.kv == FIXTURE_MAP
  {
    var w := st.SetMany(KV_RAM, FIXTURE);
    FixtureWritten();
  }

  /**
   * The scans run by a store holding the fixture. With prefix "22", a forward
   * scan from "2234" finds nothing, while a reverse scan from "2233" returns
   * the whole "22" group, last key first.
   */
  method StoreScanScenario(st: KvStore) returns (forward: Result<seq<Entry>, KvError>, backward: Result<seq<Entry>, KvError>)
    requires st.Valid() && st.kv == FIXTURE_MAP
    ensures forward == Success([])
    ensures backward == Success(Reversed(FIXTURE[1..4]))
  {
    forward := st.Scan(KV_RAM, [0x22], Some([0x22, 0x34]));
    ScanPrefix22From2234();
    backward := st.ScanRev(KV_RAM, [0x22], Some([0x22, 0x33]));
    ScanRevPrefix22From2233();
  }
}
