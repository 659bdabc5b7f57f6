# Ordered key-value store with billed usage and checked cursors

This project models the key-value store that a contract reaches through the
`eosio.kvram` database, as its test fixture `unittests/kv_tests.cpp` drives it.
It then proves that fixture's scenarios against the model.

- **Keys and values.** Both are byte strings, ordered by unsigned byte-wise
  lexicographic comparison. The empty key sorts first, and a key sorts before
  every longer key it is a prefix of.
- **Point operations.** The store (`Store.KvStore`) supports get, set (create or
  overwrite), erase (nothing happens when the key is absent) and a batch
  set-many.
- **Usage.** Every mutation bills the owner through a usage counter:
  - creating an entry costs 112 plus the lengths of its key and value;
  - overwriting charges the change in value length;
  - erasing refunds the entry's whole cost;
  - reading is free.
- **Forward scan.** It starts where a lower-bound search for the lower bound
  lands. Without a lower bound, the search is for the prefix. The search runs
  over the whole key order. The scan yields entries while their keys keep the
  prefix, so it is empty when the search lands on a key without the prefix.
- **Reverse scan.** With a lower bound, it starts on the key the same search
  lands on and walks backwards. Without a lower bound, it starts on the last
  key below the next prefix. The next prefix drops trailing FF bytes and adds
  one to the last remaining byte ("00FFFF" becomes "01"); when no byte is left,
  the scan starts on the last key.
- **Cursors.** A cursor remembers the key it stands on and the generation stamp
  that entry was created with. Once that entry is erased, stepping the cursor
  (next, prev) or reading it (key, value) fails with "Iterator to erased
  element", even after the key is written again: the new entry has a new
  stamp. Asking its status does not fail; it reports the cursor as erased. The end position is one sentinel:
  stepping forward from it reaches the first key, and stepping back reaches the
  last.
- **Database ids.** The store operations (get, set, erase, set-many and the
  two scans) and opening a cursor name a database. Any id other than
  `eosio.kvram` fails with "Bad key-value database ID" and changes nothing.
  Cursor steps and reads take no database id: they act on a cursor already
  opened on `eosio.kvram`.

Modules:

| module | file | contents |
|---|---|---|
| `Wrappers` | `wrappers.dfy` | Option, Result and Outcome |
| `KeyOrder` | `key_order.dfy` | the key order, prefixes and the next prefix |
| `SortedKeys` | `sorted_keys.dfy` | the ascending listing of a key set |
| `Scans` | `scans.dfy` | forward and reverse scans as functions of the map, and their characterisations |
| `Neighbours` | `neighbours.dfy` | lower-bound search, successor and predecessor keys |
| `Accounting` | `accounting.dfy` | entry cost, the footprint of a map, and the charge of each mutation |
| `Store` | `kv_store.dfy` | the store class, with its cursors and its cursor-walking scans |
| `Scenarios` | `scenarios.dfy` | the fixture's scenarios |

The scans are stated twice:

- as ghost functions of the map (`Scans.Scan`, `Scans.ScanRev`), characterised
  by lemmas in terms of key sets;
- as store methods (`Store.KvStore.Scan`, `Store.KvStore.ScanRev`) that walk a
  cursor with lower-bound, next and previous steps, proved equal to the
  functions.

A reverse scan whose lower-bound search lands past the prefix range could
step back to the key before the landing key and start there. The tests rule
that out: prefix "22" from "2234" is empty (`unittests/kv_tests.cpp:286-287`),
although "2233" lies just before the landing key "44". So the model's reverse
scan yields nothing whenever the landing key lacks the prefix.

## Model

| member | source | states |
|---|---|---|
| KeyOrder.Below | unittests/kv_tests.cpp:139-150 | unsigned byte-wise lexicographic order; a key that sorts below another makes that other non-empty, so the empty key sorts first; its order laws are the four lemmas below |
| KeyOrder.BelowIrreflexive | unittests/kv_tests.cpp:139-150 | no key sorts strictly before itself |
| KeyOrder.BelowTransitive | unittests/kv_tests.cpp:139-150 | the key order is transitive |
| KeyOrder.BelowTotal | unittests/kv_tests.cpp:139-150 | any two distinct keys are ordered one way or the other |
| KeyOrder.BelowAsymmetric | unittests/kv_tests.cpp:139-150 | two keys are never each below the other |
| KeyOrder.PrefixSortsFirst | unittests/kv_tests.cpp:139-150 | a key sorts at or before every key it is a prefix of ("22" before "2211", "" first) |
| KeyOrder.SharedPrefixOrder | unittests/kv_tests.cpp:139-150 | a shared prefix does not change the order of two suffixes |
| KeyOrder.NextPrefix | unittests/kv_tests.cpp:293-306 | None exactly when every byte of p is FF; otherwise the result is p's first n-1 bytes followed by p's n-th byte plus one, that byte is below FF and every byte of p after it is FF; `NextPrefixBounds` shows it closes the prefix range |
| KeyOrder.IncrementLastBounds | unittests/kv_tests.cpp:270-276 | the keys with prefix q+[x] (x < FF) are exactly those from q+[x] up to, not including, q+[x+1] |
| KeyOrder.TrailingMaxBounds | unittests/kv_tests.cpp:301-305 | a trailing FF byte keeps the next prefix of the shorter prefix, and the prefix range carries over |
| KeyOrder.NextPrefixBounds | unittests/kv_tests.cpp:293-306 | a key has prefix p iff it sorts at or after p and strictly before NextPrefix(p), or NextPrefix(p) is None |
| KeyOrder.PrefixConvex | unittests/kv_tests.cpp:185-191 | the keys with one prefix form a contiguous run of the key order |
| KeyOrder.ZeroExtensionIsSuccessor | unittests/kv_tests.cpp:139-150 | the keys after k are exactly the keys at or after k+[00], so a step forward is a lower-bound search |
| SortedKeys.AscendingUnique | unittests/kv_tests.cpp:139-150 | two strictly ascending sequences with the same keys are equal |
| SortedKeys.Sorted | unittests/kv_tests.cpp:139-150 | the listing of a key set is strictly ascending and holds exactly the set's keys |
| SortedKeys.SortedIsAscendingListing | unittests/kv_tests.cpp:139-150 | any strictly ascending sequence of a set's keys is the set's listing |
| Scans.LowerBoundIndex | unittests/kv_tests.cpp:165-183 | every key before the index sorts below the anchor, and the key at the index is at or after it |
| Scans.PrefixRun | unittests/kv_tests.cpp:185-204 | the run's keys all have the prefix, and the key after the run lacks it |
| Scans.EntriesOf | unittests/kv_tests.cpp:139-150 | one entry per key, in the same order, each with the key's value in the map |
| Scans.EntriesOfReversed | unittests/kv_tests.cpp:234-246 | reading the keys backwards reads their entries backwards |
| Scans.ScanKeys | unittests/kv_tests.cpp:185-204 | every key a forward scan yields is in the store and has the prefix |
| Scans.ScanRevKeys | unittests/kv_tests.cpp:270-290 | every key a reverse scan yields is in the store and has the prefix |
| Scans.ScanKeysAscending | unittests/kv_tests.cpp:139-218 | the keys of a forward scan strictly ascend |
| Scans.Scan | unittests/kv_tests.cpp:139-218 | every entry a forward scan yields is a stored entry whose key has the prefix, and the keys strictly ascend; `ScanKeysSpec` fixes exactly which keys |
| Scans.ScanRevKeysDescending | unittests/kv_tests.cpp:234-306 | the keys of a reverse scan strictly descend |
| Scans.ScanRev | unittests/kv_tests.cpp:234-306 | every entry a reverse scan yields is a stored entry whose key has the prefix, and the keys strictly descend; `ScanRevKeysSpec` fixes exactly which keys |
| Scans.LowerBoundLands | unittests/kv_tests.cpp:165-183 | the lower-bound index in the listing is the position of the key the lower-bound search lands on |
| Scans.ScanKeysSpec | unittests/kv_tests.cpp:165-218 | a forward scan is empty when the search for the lower bound (the prefix if none) lands on no key or on a key without the prefix; otherwise it is every key with the prefix at or after the anchor, ascending |
| Scans.ScanPrefixGroup | unittests/kv_tests.cpp:185-191 | without a lower bound, a forward scan is exactly the keys with the prefix, ascending |
| Scans.ScanWholeStore | unittests/kv_tests.cpp:139-163 | with the empty prefix and no lower bound or the empty one, a forward scan is every key, ascending |
| Scans.ReverseGroupListing | unittests/kv_tests.cpp:270-276 | without a lower bound, a reverse scan read backwards is the keys with the prefix |
| Scans.ReverseFromListing | unittests/kv_tests.cpp:278-284 | with a lower bound landing on a key with the prefix, a reverse scan read backwards is the keys with the prefix up to that key |
| Scans.ScanRevKeysSpec | unittests/kv_tests.cpp:234-290 | a reverse scan is the prefix group (no lower bound), the prefix keys up to the landing key, or empty when the landing key is missing or lacks the prefix |
| Scans.ScanRevMirrorsScan | unittests/kv_tests.cpp:234-246 | without a lower bound, a reverse scan yields the forward scan's entries in the opposite order |
| Scans.FirstAtOrAfter | unittests/kv_tests.cpp:165-183 | the lower-bound search lands on the least key at or after the anchor, or on none |
| Neighbours.FirstAtOrAfterIsUnique | unittests/kv_tests.cpp:165-183 | any key, or none, meeting the lower-bound description is the one the search lands on |
| Neighbours.FirstAtOrAfterPresent | unittests/kv_tests.cpp:308-356 | a lower-bound search for a stored key lands on that key |
| Neighbours.FirstAfter | unittests/kv_tests.cpp:139-150 | the step forward from k lands on the least stored key above k, or on none |
| Neighbours.LastBefore | unittests/kv_tests.cpp:234-246 | the step back lands on a stored key |
| Neighbours.LastBeforeIsGreatestBelow | unittests/kv_tests.cpp:234-246 | LastBefore is the greatest stored key strictly below the bound (the greatest of all without a bound), or None when no stored key is below it |
| Neighbours.LastBeforeIsUnique | unittests/kv_tests.cpp:234-246 | any key, or none, meeting the description of the greatest key below the bound is the one the step back lands on |
| Neighbours.NextInListing | unittests/kv_tests.cpp:139-150 | stepping forward from a key of the listing lands on the next key of the listing, or on none after the last |
| Neighbours.PrevInListing | unittests/kv_tests.cpp:234-246 | stepping back from a key of the listing lands on the previous key of the listing, or on none before the first |
| Neighbours.PrevOfLowerBound | unittests/kv_tests.cpp:270-276 | the greatest key below b is the greatest key below where the lower-bound search for b lands |
| Neighbours.ForwardWalk | unittests/kv_tests.cpp:165-218 | the keys a forward cursor walk visits: it starts where the lower-bound search lands and each step lands on the next; the forward scan is their leading prefix run |
| Neighbours.ReverseStart | unittests/kv_tests.cpp:270-290 | the key a reverse scan starts on is a stored key |
| Neighbours.ReverseWalk | unittests/kv_tests.cpp:234-290 | the keys a reverse cursor walk visits: it starts on the reverse start key and each step back lands on the next; the reverse scan is their leading prefix run |
| Neighbours.ScanKeysAt | unittests/kv_tests.cpp:165-218 | a forward scan is the listing's slice fixed by the keys around the lower bound and the ends of the prefix run |
| Neighbours.ScanRevKeysAt | unittests/kv_tests.cpp:234-290 | a reverse scan is a reversed slice of the listing, fixed by the keys around its ends |
| Accounting.FootprintRemove | unittests/kv_tests.cpp:358-370 | a map's footprint is the cost of any one entry plus the footprint of the rest |
| Accounting.SetCharge | unittests/kv_tests.cpp:358-368 | the charge of a set is the cost of the new entry less the cost of the entry it replaces, so at least 112+\|k\| for a new key; `SetChargeMatchesFootprint` ties it to the footprint |
| Accounting.EraseCharge | unittests/kv_tests.cpp:368-369 | the charge of an erase is never positive, is zero exactly when the key is absent, and refunds what writing the entry back would charge; `EraseChargeMatchesFootprint` ties it to the footprint |
| Accounting.SetChargeMatchesFootprint | unittests/kv_tests.cpp:358-368 | a set changes the footprint by its charge: 112+\|k\|+\|v\| on create, \|v\|-\|old v\| on overwrite |
| Accounting.EraseChargeMatchesFootprint | unittests/kv_tests.cpp:368-369 | an erase changes the footprint by its charge: the whole entry cost refunded, nothing for an absent key |
| Accounting.CreateThenEraseRestores | unittests/kv_tests.cpp:358-370 | creating a key, overwriting it any number of times and erasing it leaves the footprint where it started, and the charges of the writes plus the refund of the erase sum to zero |
| Accounting.WriteChargesTelescope | unittests/kv_tests.cpp:358-368 | the summed charges of successive writes to one key equal the change in footprint they cause |
| Accounting.UpdateAllSameKey | unittests/kv_tests.cpp:362-367 | successive writes to one key leave only the last value |
| Store.ApplySets | unittests/kv_tests.cpp:127-137 | a batch write loses no key and its last write holds its value; `ApplySetsKeys`, `ApplySetsLastWriteWins` and `ApplySetsUntouched` pin the result down key by key |
| Store.ApplySetsKeys | unittests/kv_tests.cpp:127-137 | after a batch write the keys are the old keys plus the written ones |
| Store.ApplySetsLastWriteWins | unittests/kv_tests.cpp:127-137 | after a batch write a written key holds its last written value |
| Store.ApplySetsUntouched | unittests/kv_tests.cpp:127-137 | a batch write leaves every key it does not name as it was |
| Store.KvStore.Status | unittests/kv_tests.cpp:308-356 | a cursor's status is AtEnd exactly for the end cursor, Ok exactly when it is live and Erased exactly when it is stale |
| Store.KvStore.constructor | unittests/kv_tests.cpp:358-359 | a new store is empty and its usage is the base usage |
| Store.KvStore.Get | unittests/kv_tests.cpp:102-109 | returns the stored value or None for an absent key; a bad database id fails |
| Store.KvStore.Set | unittests/kv_tests.cpp:102-109 | stores the value at the key, bills the set charge, keeps the store valid and every cursor's liveness; a bad database id fails and changes nothing |
| Store.KvStore.Erase | unittests/kv_tests.cpp:110-123 | removes the key (a no-op when absent), refunds its cost, and makes exactly the cursors on it stale; a bad database id fails |
| Store.KvStore.SetMany | unittests/kv_tests.cpp:127-137 | applies the writes in order, billing the change in footprint, keeping cursors' liveness |
| Store.KvStore.OpenCursor | unittests/kv_tests.cpp:377-380 | a cursor on the RAM database starts at the end; any other database id fails |
| Store.KvStore.SeekFirstAtOrAfter | unittests/kv_tests.cpp:165-183 | the loop finds the least key at or after the anchor |
| Store.KvStore.SeekLastBefore | unittests/kv_tests.cpp:270-276 | the loop finds the greatest key below the bound |
| Store.KvStore.LowerBound | unittests/kv_tests.cpp:165-183 | a live cursor on the lower-bound key, or the end cursor |
| Store.KvStore.Next | unittests/kv_tests.cpp:308-356 | a stale cursor fails with "Iterator to erased element"; a live one steps to the next key or the end; the end steps to the first key |
| Store.KvStore.Prev | unittests/kv_tests.cpp:308-356 | a stale cursor fails; a live one steps to the previous key or the end; the end steps to the last key |
| Store.KvStore.CursorKey | unittests/kv_tests.cpp:308-356 | a stale cursor fails; a live one reads its key; the end reads None |
| Store.KvStore.CursorValue | unittests/kv_tests.cpp:308-356 | a stale cursor fails; a live one reads its entry's current value; the end reads None |
| Store.KvStore.Scan | unittests/kv_tests.cpp:139-218 | walking a cursor from the lower bound while keys keep the prefix yields exactly `Scans.Scan` |
| Store.KvStore.SeekReverseStart | unittests/kv_tests.cpp:270-306 | positions a live cursor on the reverse start key: the lower-bound key, or the key before the next prefix, or the last key |
| Store.KvStore.ScanRev | unittests/kv_tests.cpp:234-306 | walking a cursor backwards from the reverse start while keys keep the prefix yields exactly `Scans.ScanRev` |
| Scenarios.FixtureWritten | unittests/kv_tests.cpp:127-137 | the batch write of the fixture into an empty store gives the fixture map |
| Scenarios.FixtureListing | unittests/kv_tests.cpp:127-137 | the fixture map is listed, in ascending key order, as "", 22, 2211, 2233, 44, 4400, 4401, 4402 |
| Scenarios.FixtureScan | unittests/kv_tests.cpp:139-218 | a forward scan of the fixture is the fixture slice fixed by the keys around it |
| Scenarios.FixtureScanRev | unittests/kv_tests.cpp:234-290 | a reverse scan of the fixture is the reversed fixture slice fixed by the keys around it |
| Scenarios.ScanAll | unittests/kv_tests.cpp:139-150 | no prefix, no lower bound: the whole fixture, ascending |
| Scenarios.ScanAllFromEmpty | unittests/kv_tests.cpp:152-163 | no prefix, lower bound "": the whole fixture, ascending |
| Scenarios.ScanFrom221100 | unittests/kv_tests.cpp:165-173 | lower bound "221100": from "2233" on |
| Scenarios.ScanFrom2233 | unittests/kv_tests.cpp:175-183 | lower bound "2233": from "2233" on |
| Scenarios.ScanPrefix22 | unittests/kv_tests.cpp:185-191 | prefix "22": "22", "2211", "2233" |
| Scenarios.ScanPrefix22From2211 | unittests/kv_tests.cpp:193-198 | prefix "22" from "2211": "2211", "2233" |
| Scenarios.ScanPrefix22From2234 | unittests/kv_tests.cpp:200-201 | prefix "22" from "2234": empty |
| Scenarios.ScanPrefix33 | unittests/kv_tests.cpp:203-204 | prefix "33": empty |
| Scenarios.ScanPrefix44From223300 | unittests/kv_tests.cpp:206-214 | prefix "44" from "223300": the whole "44" group, since the search lands on "44" |
| Scenarios.ScanPrefix44From2233 | unittests/kv_tests.cpp:216-218 | prefix "44" from "2233": empty, since the search lands on "2233" |
| Scenarios.ScanRevAll | unittests/kv_tests.cpp:234-245 | no prefix, no lower bound: the whole fixture, descending |
| Scenarios.ScanRevFrom4402 | unittests/kv_tests.cpp:247-258 | no prefix, from "4402": the whole fixture, descending |
| Scenarios.ScanRevFrom44 | unittests/kv_tests.cpp:260-268 | no prefix, from "44": "44" down to "" |
| Scenarios.ScanRevPrefix22 | unittests/kv_tests.cpp:270-276 | prefix "22": "2233", "2211", "22" |
| Scenarios.ScanRevPrefix22From2233 | unittests/kv_tests.cpp:278-284 | prefix "22" from "2233": "2233", "2211", "22" |
| Scenarios.ScanRevPrefix22From2234 | unittests/kv_tests.cpp:286-287 | prefix "22" from "2234": empty |
| Scenarios.ScanRevPrefix33 | unittests/kv_tests.cpp:289-290 | prefix "33": empty |
| Scenarios.CarryListing | unittests/kv_tests.cpp:294-299 | the second fixture gives its map, listed as "00FFFF", "01", "0100" |
| Scenarios.ScanRevCarry | unittests/kv_tests.cpp:301-305 | the next prefix of "00FFFF" is "01", and a reverse scan with prefix "00FFFF" yields "00FFFF" alone |
| Scenarios.BasicEmptyKey | unittests/kv_tests.cpp:102-106 | the empty key is absent, then holds the empty value, then "1234" |
| Scenarios.BasicAbsentErase | unittests/kv_tests.cpp:107-112 | "00" is written and read back; erasing the absent "02" leaves it absent |
| Scenarios.BasicEraseOne | unittests/kv_tests.cpp:112-117 | "02" is written and read back; erasing it leaves the other writes |
| Scenarios.BasicScenario | unittests/kv_tests.cpp:101-124 | all fourteen reads of the scenario return what the test expects |
| Scenarios.RamUsageScenario | unittests/kv_tests.cpp:358-370 | usage reads base, base, base+113, base+115, base+114, base |
| Scenarios.EraseUnderCursor | unittests/kv_tests.cpp:308-356 | a cursor on "22" goes stale when "22" is erased, whether or not "22" is written again |
| Scenarios.ErasedCursorScenario | unittests/kv_tests.cpp:308-356 | stepping (next, prev) or reading (key, value) the stale cursor fails with "Iterator to erased element", also after a re-insert, while asking its status reports Erased without failing; a new cursor reads "12" after a re-insert and nothing otherwise |
| Scenarios.DatabaseIdScenario | unittests/kv_tests.cpp:377-380 | database id "oops" fails with "Bad key-value database ID"; `eosio.kvram` succeeds |
| Scenarios.FillFixture | unittests/kv_tests.cpp:127-137 | a batch write of the fixture into an empty store leaves exactly the fixture map |
| Scenarios.StoreScanScenario | unittests/kv_tests.cpp:200-284 | on the fixture store, the forward scan for prefix "22" from "2234" is empty (lines 200-201), and the reverse scan from "2233" is the "22" group, descending (lines 278-284) |

## Left out

- The test harness is not part of this model:
  - block production, account creation, code and ABI installation, and action serialisation;
  - the WASM test contract that turns actions into store calls;
  - the chain's resource-limits manager.
  Usage is a plain integer field of the store, starting from a base the caller supplies.
- The store implementation is not part of this model. Its lower-bound and step operations are modelled as searches over the key set (`SeekFirstAtOrAfter`, `SeekLastBefore`), without the implementation's index structure.
- The twelve numbered cases of the erased-cursor test live in the test contract, which is not part of this model. Staleness is modelled once, by generation stamps, and the scenario covers the three setups the test loops over: the entry written beforehand, written in the same run, or both, each with and without a re-insert.
- Where the end cursor steps is not fixed by the tests. The model makes the end one sentinel that steps to the first key forward and to the last key back.
- A reverse scan whose lower bound lies past every key is not fixed by the tests. The model makes it empty.
- Not modelled, because the tests do not exercise them: persistence across blocks, databases other than the one RAM database (they only fail), several owners, and rollback of a failed action.
- Store.KvStore.CursorKey: reading the end cursor gives `Success(None)` instead of failing with a separate no-current-element error; no expectation in the test file reads a cursor at the end, and the test contract whose numbered erased-cursor cases might do so is not part of this model.
- Store.KvStore.CursorValue: reading the end cursor gives `Success(None)` instead of failing with a separate no-current-element error, for the same reason.
- Store.KvStore.Set: usage is an unbounded integer; the counter's 64-bit width and overflow are not modelled.
- Store.KvStore.SetMany: its usage contract is stated as the change in footprint rather than as the per-write charges.
