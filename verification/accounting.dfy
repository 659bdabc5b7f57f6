/**
 * Resource accounting.
 *
 * Every entry of an owner's store is billed to the owner's usage counter at a
 * fixed per-entry overhead of 112 bytes plus the bytes of its key and value.
 * The counter therefore always equals a base amount plus the `Footprint` of the
 * store, and each mutation changes it by the difference of footprints:
 * creating an entry charges its whole cost, overwriting charges only the change
 * in value length, erasing refunds the whole cost, and reading charges nothing.
 */
module Accounting {
  import opened KeyOrder

  /** Bytes billed for each entry on top of its key and value. */
  const ENTRY_OVERHEAD: int := 112

  /** Bytes billed for the entry `k` -> `v`. */
  function EntryCost(k: Key, v: Value): int {
    ENTRY_OVERHEAD + |k| + |v|
  }

  /** Total bytes billed for the entries of `m`. */
  ghost function Footprint(m: map<Key, Value>): int
    decreases |m|
  {
    if m == map[] then 0
    else
      var k :| k in m;
      assert |m - {k}| == |m| - 1 by {
        assert m.Keys - {k} == (m - {k}).Keys;
      }
      EntryCost(k, m[k]) + Footprint(m - {k})
  }

  /** The footprint counts each entry once, whichever entry is taken first. */
  lemma {:induction false} FootprintRemove(m: map<Key, Value>, k: Key)
    requires k in m
    ensures Footprint(m) == EntryCost(k, m[k]) + Footprint(m - {k})
    decreases |m|
  {
    var j :| j in m && Footprint(m) == EntryCost(j, m[j]) + Footprint(m - {j});
    if j != k {
      var mj, mk := m - {j}, m - {k};
      assert |mj| == |m| - 1 by {
        assert m.Keys - {j} == mj.Keys;
      }
      FootprintRemove(mj, k);
      assert mj - {k} == mk - {j};
      assert |mk| == |m| - 1 by {
        assert m.Keys - {k} == mk.Keys;
      }
      FootprintRemove(mk, j);
    }
  }

  /** What `set(k, v)` charges: the cost of the new entry less the cost of the entry it replaces. */
  function SetCharge(m: map<Key, Value>, k: Key, v: Value): (c: int)
    ensures c == EntryCost(k, v) - (if k in m then EntryCost(k, m[k]) else 0)
    ensures k !in m ==> c >= ENTRY_OVERHEAD + |k|
  {
    if k in m then |v| - |m[k]| else EntryCost(k, v)
  }

  /**
   * What `erase(k)` charges: never a positive amount; a refund exactly when `k`
   * is present, of as much as writing the entry back would charge.
   */
  function EraseCharge(m: map<Key, Value>, k: Key): (c: int)
    ensures c <= 0
    ensures c == 0 <==> k !in m
    ensures k in m ==> c == -SetCharge(m - {k}, k, m[k])
  {
    if k in m then -EntryCost(k, m[k]) else 0
  }

  /** Charging `SetCharge` keeps the counter equal to the footprint. */
  lemma SetChargeMatchesFootprint(m: map<Key, Value>, k: Key, v: Value)
    ensures Footprint(m[k := v]) == Footprint(m) + SetCharge(m, k, v)
    ensures k !in m ==> SetCharge(m, k, v) == ENTRY_OVERHEAD + |k| + |v|
    ensures k in m ==> SetCharge(m, k, v) == |v| - |m[k]|
  {
    FootprintRemove(m[k := v], k);
    assert m[k := v] - {k} == m - {k};
    if k in m {
      FootprintRemove(m, k);
    } else {
      assert m - {k} == m;
    }
  }

  /** Charging `EraseCharge` keeps the counter equal to the footprint; erasing an absent key charges nothing. */
  lemma EraseChargeMatchesFootprint(m: map<Key, Value>, k: Key)
    ensures Footprint(m - {k}) == Footprint(m) + EraseCharge(m, k)
    ensures k in m ==> EraseCharge(m, k) == -(ENTRY_OVERHEAD + |k| + |m[k]|)
    ensures k !in m ==> EraseCharge(m, k) == 0
  {
    if k in m {
      FootprintRemove(m, k);
    } else {
      assert m - {k} == m;
    }
  }

  /**
   * Creating a key and erasing it again, whatever values it held in between,
   * restores the footprint: the charges of the writes and the refund of the
   * erase add up to nothing.
   */
  lemma CreateThenEraseRestores(m: map<Key, Value>, k: Key, vs: seq<Value>)
    requires k !in m && |vs| > 0
    ensures Footprint(UpdateAll(m, k, vs) - {k}) == Footprint(m)
    ensures WriteCharges(m, k, vs) + EraseCharge(UpdateAll(m, k, vs), k) == 0
  {
    assert UpdateAll(m, k, vs) - {k} == m - {k} == m by {
      UpdateAllSameKey(m, k, vs);
    }
    WriteChargesTelescope(m, k, vs);
    EraseChargeMatchesFootprint(UpdateAll(m, k, vs), k);
  }

  /** The charges of writing the values `vs` to `k` one after another, summed. */
  function WriteCharges(m: map<Key, Value>, k: Key, vs: seq<Value>): int
    decreases |vs|
  {
    if vs == [] then 0 else SetCharge(m, k, vs[0]) + WriteCharges(m[k := vs[0]], k, vs[1..])
  }

  /** The summed charges of a run of writes are the change in footprint they cause. */
  lemma {:induction false} WriteChargesTelescope(m: map<Key, Value>, k: Key, vs: seq<Value>)
    ensures Footprint(UpdateAll(m, k, vs)) == Footprint(m) + WriteCharges(m, k, vs)
    decreases |vs|
  {
    if vs != [] {
      SetChargeMatchesFootprint(m, k, vs[0]);
      WriteChargesTelescope(m[k := vs[0]], k, vs[1..]);
    }
  }

  /** The store after writing the values `vs` to `k` one after another. */
  function UpdateAll(m: map<Key, Value>, k: Key, vs: seq<Value>): (r: map<Key, Value>)
    decreases |vs|
  {
    if vs == [] then m else UpdateAll(m[k := vs[0]], k, vs[1..])
  }

  lemma {:induction false} UpdateAllSameKey(m: map<Key, Value>, k: Key, vs: seq<Value>)
    requires |vs| > 0
    ensures UpdateAll(m, k, vs) == m[k := vs[|vs| - 1]]
    decreases |vs|
  {
    if |vs| > 1 {
      UpdateAllSameKey(m[k := vs[0]], k, vs[1..]);
      assert m[k := vs[0]][k := vs[|vs| - 1]] == m[k := vs[|vs| - 1]];
    }
  }
}
