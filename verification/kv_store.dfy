/**
 * The key-value store of one owner in the RAM-billed database, with its usage
 * counter and its cursors.
 *
 * The store holds its entries in `kv`. Each entry also carries a generation
 * stamp, handed out from `nextStamp` when the entry is created and kept while
 * it is overwritten. A cursor remembers the key and the stamp of the entry it
 * was positioned on; it is live while that entry still carries that stamp, and
 * erased once the entry is gone, even when the key is created again later
 * (the new entry gets a new stamp). Stepping an erased cursor (`Next`, `Prev`)
 * or reading it (`CursorKey`, `CursorValue`) fails with "Iterator to erased
 * element"; asking its `Status` reports `Erased` without failing. The end
 * position is a single sentinel: stepping forward from it reaches the first
 * key and stepping back reaches the last.
 *
 * The store operations (get, set, erase, set-many, the two scans) and opening a
 * cursor name a database; any database other than `eosio.kvram` fails with
 * "Bad key-value database ID" and changes nothing. Cursor steps and reads take
 * no database: they act on a cursor already opened on `eosio.kvram`.
 */
module Store {
  import opened Wrappers
  import opened KeyOrder
  import opened SortedKeys
  import opened Scans
  import opened Neighbours
  import opened Accounting

  /** The one database id the store serves. */
  const KV_RAM: string := "eosio.kvram"

  datatype KvError = BadDatabaseId | IteratorErased {
    /** The message a failing call reports. */
    function Message(): string {
      match this
      case BadDatabaseId => "Bad key-value database ID"
      case IteratorErased => "Iterator to erased element"
    }
  }

  /** A cursor: on the entry with `key` created under generation `stamp`, or at the end. */
  datatype Cursor = At(key: Key, stamp: nat) | End

  datatype CursorStatus = Ok | Erased | AtEnd

  /**
   * The entries of `m` after writing the entries of `kvs` in order: no key is
   * lost, and the last write holds its value.
   */
  function ApplySets(m: map<Key, Value>, kvs: seq<Entry>): (r: map<Key, Value>)
    ensures m.Keys <= r.Keys
    ensures kvs != [] ==> kvs[|kvs| - 1].key in r && r[kvs[|kvs| - 1].key] == kvs[|kvs| - 1].value
    decreases |kvs|
  {
    if kvs == [] then m
    else ApplySets(m, kvs[..|kvs| - 1])[kvs[|kvs| - 1].key := kvs[|kvs| - 1].value]
  }

  /** After a batch of writes, the keys are the old keys and the written ones. */
  lemma {:induction false} ApplySetsKeys(m: map<Key, Value>, kvs: seq<Entry>)
    ensures ApplySets(m, kvs).Keys == m.Keys + set e | e in kvs :: e.key
    decreases |kvs|
  {
    if kvs != [] {
      var init := kvs[..|kvs| - 1];
      ApplySetsKeys(m, init);
      assert kvs == init + [kvs[|kvs| - 1]];
      assert (set e | e in kvs :: e.key) == (set e | e in init :: e.key) + {kvs[|kvs| - 1].key};
    }
  }

  /** After a batch of writes, a written key holds the value of its last write. */
  lemma {:induction false} ApplySetsLastWriteWins(m: map<Key, Value>, kvs: seq<Entry>, i: nat)
    requires i < |kvs|
    requires forall j :: i < j < |kvs| ==> kvs[j].key != kvs[i].key
    ensures kvs[i].key in ApplySets(m, kvs) && ApplySets(m, kvs)[kvs[i].key] == kvs[i].value
    decreases |kvs|
  {
    if i < |kvs| - 1 {
      ApplySetsLastWriteWins(m, kvs[..|kvs| - 1], i);
    }
  }

  /** After a batch of writes, a key no write names is as it was. */
  lemma {:induction false} ApplySetsUntouched(m: map<Key, Value>, kvs: seq<Entry>, k: Key)
    requires forall j :: 0 <= j < |kvs| ==> kvs[j].key != k
    ensures k in ApplySets(m, kvs) <==> k in m
    ensures k in m ==> ApplySets(m, kvs)[k] == m[k]
    decreases |kvs|
  {
    if kvs != [] {
      ApplySetsUntouched(m, kvs[..|kvs| - 1], k);
    }
  }

  class KvStore {
    /** The entries. */
    var kv: map<Key, Value>
    /** The generation stamp of each entry. */
    var stamps: map<Key, nat>
    /** The stamp the next created entry receives. */
    var nextStamp: nat
    /** The owner's billed usage. */
    var usage: int
    /** The usage billed for everything but this store. */
    const baseUsage: int

    ghost predicate Valid()
      reads this
    {
      stamps.Keys == kv.Keys &&
      (forall k :: k in stamps ==> stamps[k] < nextStamp) &&
      usage == baseUsage + Footprint(kv)
    }

    /** The cursor's entry still exists under the generation the cursor saw. */
    predicate Live(c: Cursor)
      reads this
    {
      c.At? && c.key in stamps && stamps[c.key] == c.stamp
    }

    /** The cursor's entry was erased after the cursor was positioned on it. */
    predicate Stale(c: Cursor)
      reads this
    {
      c.At? && !Live(c)
    }

    /** The cursor could have been handed out by this store so far. */
    ghost predicate Issued(c: Cursor)
      reads this
    {
      c.At? ==> c.stamp < nextStamp
    }

    /** A cursor reads as at the end, on a live entry, or on an erased one. */
    function Status(c: Cursor): (s: CursorStatus)
      reads this
      ensures s == AtEnd <==> c.End?
      ensures s == Ok <==> Live(c)
      ensures s == Erased <==> Stale(c)
    {
      if c.End? then AtEnd else if Live(c) then Ok else Erased
    }

    /** The cursor on key `p`, or the end cursor for None. */
    function CursorTo(p: Option<Key>): (c: Cursor)
      reads this
      requires p.Some? ==> p.value in stamps
    {
      match p
      case Some(k) => At(k, stamps[k])
      case None => End
    }

    constructor(base: int)
      ensures Valid()
      ensures kv == map[] && usage == base && baseUsage == base
    {
      kv := map[];
      stamps := map[];
      nextStamp := 0;
      usage := base;
      baseUsage := base;
    }

    /** Reads the value stored at `k`; absence is not an error. */
    method Get(db: string, k: Key) returns (r: Result<Option<Value>, KvError>)
      ensures db != KV_RAM ==> r == Failure(BadDatabaseId)
      ensures db == KV_RAM ==> r == Success(if k in kv then Some(kv[k]) else None)
    {
      if db != KV_RAM {
        return Failure(BadDatabaseId);
      }
      if k in kv {
        r := Success(Some(kv[k]));
      } else {
        r := Success(None);
      }
    }

    /**
     * Creates or overwrites the entry `k`, charging the whole entry when it is
     * new and the change in value length otherwise. An overwritten entry keeps
     * its generation, so no cursor changes liveness.
     */
    method Set(db: string, k: Key, v: Value) returns (r: Outcome<KvError>)
      requires Valid()
      modifies this
      ensures Valid()
      ensures db != KV_RAM ==>
        r == Fail(BadDatabaseId) && kv == old(kv) && stamps == old(stamps) && usage == old(usage)
      ensures db == KV_RAM ==> r == Pass && kv == old(kv)[k := v]
      ensures db == KV_RAM ==> usage == old(usage) + SetCharge(old(kv), k, v)
      ensures forall c :: old(Issued(c)) ==> Issued(c) && (Live(c) <==> old(Live(c)))
    {
      if db != KV_RAM {
        return Fail(BadDatabaseId);
      }
      SetChargeMatchesFootprint(kv, k, v);
      usage := usage + SetCharge(kv, k, v);
      if k !in kv {
        stamps := stamps[k := nextStamp];
        nextStamp := nextStamp + 1;
      }
      kv := kv[k := v];
      r := Pass;
    }

    /**
     * Removes the entry `k` if present, refunding its whole cost; erasing an
     * absent key changes nothing. Exactly the cursors on the erased entry stop
     * being live.
     */
    method Erase(db: string, k: Key) returns (r: Outcome<KvError>)
      requires Valid()
      modifies this
      ensures Valid()
      ensures db != KV_RAM ==>
        r == Fail(BadDatabaseId) && kv == old(kv) && stamps == old(stamps) && usage == old(usage)
      ensures db == KV_RAM ==> r == Pass && kv == old(kv) - {k}
      ensures db == KV_RAM ==> usage == old(usage) + EraseCharge(old(kv), k)
      ensures nextStamp == old(nextStamp)
      ensures forall c :: Live(c) <==> old(Live(c)) && (db != KV_RAM || c.key != k)
    {
      if db != KV_RAM {
        return Fail(BadDatabaseId);
      }
      EraseChargeMatchesFootprint(kv, k);
      usage := usage + EraseCharge(kv, k);
      stamps := stamps - {k};
      kv := kv - {k};
      r := Pass;
    }

    /** Writes the entries of `kvs` in order, as that many calls of `Set`. */
    method SetMany(db: string, kvs: seq<Entry>) returns (r: Outcome<KvError>)
      requires Valid()
      modifies this
      ensures Valid()
      ensures db != KV_RAM ==>
        r == Fail(BadDatabaseId) && kv == old(kv) && stamps == old(stamps) && usage == old(usage)
      ensures db == KV_RAM ==> r == Pass && kv == ApplySets(old(kv), kvs)
      ensures usage - old(usage) == Footprint(kv) - Footprint(old(kv))
      ensures forall c :: old(Issued(c)) ==> Issued(c) && (Live(c) <==> old(Live(c)))
    {
      if db != KV_RAM {
        return Fail(BadDatabaseId);
      }
      for i := 0 to |kvs|
        invariant Valid()
        invariant kv == ApplySets(old(kv), kvs[..i])
        invariant forall c :: old(Issued(c)) ==> Issued(c) && (Live(c) <==> old(Live(c)))
      {
        assert kvs[..i + 1][..i] == kvs[..i];
        var written := Set(db, kvs[i].key, kvs[i].value);
      }
      assert kvs[..|kvs|] == kvs;
      r := Pass;
    }

    /** Opens a cursor, at the end position, after checking the database id. */
    method OpenCursor(db: string) returns (r: Result<Cursor, KvError>)
      ensures db != KV_RAM ==> r == Failure(BadDatabaseId)
      ensures db == KV_RAM ==> r == Success(End)
    {
      if db != KV_RAM {
        return Failure(BadDatabaseId);
      }
      r := Success(End);
    }

    /** Finds the least key at or after `anchor` by examining every key. */
    method SeekFirstAtOrAfter(anchor: Key) returns (r: Option<Key>)
      ensures IsFirstAtOrAfter(kv.Keys, anchor, r)
      ensures r == FirstAtOrAfter(kv, anchor)
    {
      var rest := kv.Keys;
      r := None;
      while rest != {}
        invariant rest <= kv.Keys
        invariant IsFirstAtOrAfter(kv.Keys - rest, anchor, r)
        decreases |rest|
      {
        var k :| k in rest;
        FirstAtOrAfterStep(kv.Keys - rest, k, anchor, r);
        r := FirstAtOrAfterPick(anchor, k, r);
        assert kv.Keys - (rest - {k}) == (kv.Keys - rest) + {k};
        rest := rest - {k};
      }
      assert kv.Keys - rest == kv.Keys;
      FirstAtOrAfterIsUnique(kv, anchor, r);
    }

    /** Finds the greatest key before `bound` (or of all, without a bound) by examining every key. */
    method SeekLastBefore(bound: Option<Key>) returns (r: Option<Key>)
      ensures IsLastBefore(kv.Keys, bound, r)
      ensures r == LastBefore(kv, bound)
    {
      var rest := kv.Keys;
      r := None;
      while rest != {}
        invariant rest <= kv.Keys
        invariant IsLastBefore(kv.Keys - rest, bound, r)
        decreases |rest|
      {
        var k :| k in rest;
        LastBeforeStep(kv.Keys - rest, k, bound, r);
        r := LastBeforePick(bound, k, r);
        assert kv.Keys - (rest - {k}) == (kv.Keys - rest) + {k};
        rest := rest - {k};
      }
      assert kv.Keys - rest == kv.Keys;
      LastBeforeIsUnique(kv, bound, r);
    }

    /** Positions a cursor on the least key at or after `k`, or at the end when there is none. */
    method LowerBound(k: Key) returns (c: Cursor)
      requires Valid()
      ensures c == CursorTo(FirstAtOrAfter(kv, k))
      ensures c.At? ==> Live(c) && Issued(c)
    {
      var p := SeekFirstAtOrAfter(k);
      c := CursorTo(p);
    }

    /** Steps a cursor forward: to the next key, from the last key to the end, and from the end to the first key. */
    method Next(c: Cursor) returns (r: Result<Cursor, KvError>)
      requires Valid()
      ensures Stale(c) ==> r == Failure(IteratorErased)
      ensures c.End? ==> r == Success(CursorTo(FirstAtOrAfter(kv, [])))
      ensures Live(c) ==> r == Success(CursorTo(FirstAfter(kv, c.key)))
      ensures r.Success? && r.value.At? ==> Live(r.value) && Issued(r.value)
    {
      if Stale(c) {
        return Failure(IteratorErased);
      }
      var p;
      if c.End? {
        p := SeekFirstAtOrAfter([]);
      } else {
        p := SeekFirstAtOrAfter(c.key + [0]);
      }
      r := Success(CursorTo(p));
    }

    /** Steps a cursor back: to the previous key, from the first key to the end, and from the end to the last key. */
    method Prev(c: Cursor) returns (r: Result<Cursor, KvError>)
      requires Valid()
      ensures Stale(c) ==> r == Failure(IteratorErased)
      ensures c.End? ==> r == Success(CursorTo(LastBefore(kv, None)))
      ensures Live(c) ==> r == Success(CursorTo(LastBefore(kv, Some(c.key))))
      ensures r.Success? && r.value.At? ==> Live(r.value) && Issued(r.value)
    {
      if Stale(c) {
        return Failure(IteratorErased);
      }
      var p;
      if c.End? {
        p := SeekLastBefore(None);
      } else {
        p := SeekLastBefore(Some(c.key));
      }
      r := Success(CursorTo(p));
    }

    /** The key under a cursor; None at the end. */
    method CursorKey(c: Cursor) returns (r: Result<Option<Key>, KvError>)
      ensures Stale(c) ==> r == Failure(IteratorErased)
      ensures c.End? ==> r == Success(None)
      ensures Live(c) ==> r == Success(Some(c.key))
    {
      if Stale(c) {
        return Failure(IteratorErased);
      }
      r := Success(if c.At? then Some(c.key) else None);
    }

    /** The value under a cursor; None at the end. */
    method CursorValue(c: Cursor) returns (r: Result<Option<Value>, KvError>)
      requires Valid()
      ensures Stale(c) ==> r == Failure(IteratorErased)
      ensures c.End? ==> r == Success(None)
      ensures Live(c) ==> c.key in kv && r == Success(Some(kv[c.key]))
    {
      if Stale(c) {
        return Failure(IteratorErased);
      }
      if c.At? {
        r := Success(Some(kv[c.key]));
      } else {
        r := Success(None);
      }
    }

    /**
     * Forward scan: positions a cursor with a lower-bound search for `lower`,
     * or for `prefix` without a lower bound, and collects entries while their
     * keys have `prefix`, stepping forward.
     */
    method Scan(db: string, prefix: Key, lower: Option<Key>) returns (r: Result<seq<Entry>, KvError>)
      requires Valid()
      ensures db != KV_RAM ==> r == Failure(BadDatabaseId)
      ensures db == KV_RAM ==> r == Success(Scans.Scan(kv, prefix, lower))
    {
      var handle := OpenCursor(db);
      if handle.Failure? {
        return Failure(handle.error);
      }
      ghost var s := ForwardWalk(kv, prefix, lower);
      var c := LowerBound(lower.GetOr(prefix));
      ghost var n := 0;
      var out: seq<Entry> := [];
      while c.At? && HasPrefix(c.key, prefix)
        invariant n <= |s|
        invariant n < |s| ==> c.At? && c.key == s[n] && Live(c)
        invariant n == |s| ==> c.End?
        invariant forall j :: 0 <= j < n ==> HasPrefix(s[j], prefix)
        invariant forall k :: k in s[..n] ==> k in kv
        invariant out == EntriesOf(kv, s[..n])
        decreases |s| - n
      {
        EntriesOfStep(kv, s, n);
        out := out + [Entry(c.key, kv[c.key])];
        var moved := Next(c);
        assert FirstAfter(kv, s[n]) == if n + 1 < |s| then Some(s[n + 1]) else None;
        c := moved.value;
        assert n + 1 < |s| ==> c.At?;
        n := n + 1;
      }
      PrefixRunExact(s, prefix, n);
      r := Success(out);
    }

    /** Positions a cursor where a reverse scan starts, by a lower-bound search and a step back. */
    method SeekReverseStart(prefix: Key, lower: Option<Key>) returns (c: Cursor)
      requires Valid()
      ensures c == CursorTo(ReverseStart(kv, prefix, lower))
      ensures c.At? ==> Live(c) && Issued(c)
    {
      match lower {
        case Some(l) =>
          c := LowerBound(l);
        case None =>
          match NextPrefix(prefix) {
            case None =>
              var moved := Prev(End);
              c := moved.value;
            case Some(np) =>
              var found := LowerBound(np);
              PrevOfLowerBound(kv, np);
              var moved := Prev(found);
              c := moved.value;
          }
      }
    }

    /**
     * Reverse scan: starts on `ReverseStart` and collects entries while their
     * keys have `prefix`, stepping back.
     */
    method ScanRev(db: string, prefix: Key, lower: Option<Key>) returns (r: Result<seq<Entry>, KvError>)
      requires Valid()
      ensures db != KV_RAM ==> r == Failure(BadDatabaseId)
      ensures db == KV_RAM ==> r == Success(Scans.ScanRev(kv, prefix, lower))
    {
      var handle := OpenCursor(db);
      if handle.Failure? {
        return Failure(handle.error);
      }
      ghost var d := ReverseWalk(kv, prefix, lower);
      var c := SeekReverseStart(prefix, lower);
      ghost var n := 0;
      var out: seq<Entry> := [];
      while c.At? && HasPrefix(c.key, prefix)
        invariant n <= |d|
        invariant n < |d| ==> c.At? && c.key == d[n] && Live(c)
        invariant n == |d| ==> c.End?
        invariant forall j :: 0 <= j < n ==> HasPrefix(d[j], prefix)
        invariant forall k :: k in d[..n] ==> k in kv
        invariant out == EntriesOf(kv, d[..n])
        decreases |d| - n
      {
        EntriesOfStep(kv, d, n);
        out := out + [Entry(c.key, kv[c.key])];
        var moved := Prev(c);
        assert LastBefore(kv, Some(d[n])) == if n + 1 < |d| then Some(d[n + 1]) else None;
        c := moved.value;
        assert n + 1 < |d| ==> c.At?;
        n := n + 1;
      }
      PrefixRunExact(d, prefix, n);
      r := Success(out);
    }
  }
}
