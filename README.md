# Quotient filter, modelled and verified in Dafny

This project models the quotient filter of `qf.h` (Vedant Kumar, 2014).
A quotient filter is a compact approximate-membership table. It splits the
low `q + r` bits of a 64-bit hash into a `q`-bit quotient `fq` and an
`r`-bit remainder `fr`. The remainder is stored in a table of `2^q` slots,
as near as possible to slot `fq`, its canonical slot.

Each slot holds `r + 3` bits: three flags and the remainder.
- `occupied` says that the slot is the canonical slot of some stored remainder.
- `continuation` says that the remainder belongs to the same run as the one before it.
- `shifted` says that the remainder is not in its canonical slot.

All remainders of one quotient form a run, sorted in ascending order.
Runs follow one another in quotient order inside a cluster, which is a
stretch of used slots that begins with an unshifted remainder. The slots
are packed back to back into 64-bit words.

The model has these parts.
- `Bits`: bit fields of words, defined one bit at a time on natural numbers.
- `Packed`: the packed table, `get_elem`/`set_elem` as the functions `Load`/`Store`.
- `Slot`: the flag codec.
- `Fingerprint`: the hash split and the fingerprint the iterator rebuilds.
- `Layout`, `Runs`, `Insertion`, `Placement`, `Deletion`, `Iteration`: the table
  invariant, and the facts about run location, the insert cascade, the delete
  shift and the iteration order. These are stated on the decoded table, a
  `seq<nat>` of slot values.
- `QuotientFilter`: the classes `Filter` and `Iterator`. Their methods update the
  packed word array in place with the loops of the C code.

Every `Filter` carries ghost state:
- `slots`, the decoded table;
- `home`, the quotient each used slot belongs to.

The set of stored fingerprints `Stored()` is computed from this ghost state.
Each public operation is proved against `Stored()`, and the invariant
`Valid()` is preserved. **Valid** means:
- the flags agree with where every remainder sits;
- runs are sorted and no fingerprint appears twice;
- `entries` counts the used slots.

The source file `qf.c`, which holds the function bodies, is not part of this
model. The loops follow the operations that `qf.h` declares and documents:
`find_run_index`, `insert_into`, `delete_entry` and the iterator. They use the
flag semantics above, which are this data structure's standard design.

## Model

| member | source | states |
|---|---|---|
| Packed.Store | qf.h:130-131 | `set_elem` on the word sequence: the table keeps its length; `LoadStoreSame`, `LoadStoreOther` and `StoreWellSized` give what it writes |
| Packed.Load | qf.h:127-128 | the value read from slot `idx` fits in `elem_bits` bits |
| Packed.LoadStoreSame | qf.h:127-131 | reading back a slot just written returns the low `elem_bits` bits of the value written |
| Packed.LoadStoreOther | qf.h:127-131 | writing slot `idx` leaves every other slot unchanged, including neighbours that share a 64-bit word |
| Packed.StoreWellSized | qf.h:29 | after a store, every table word still fits in 64 bits |
| Packed.SpillSame | qf.h:127-131 | a slot split across two words reads back whole |
| Packed.DecodesStore | qf.h:130-131 | after `set_elem`, the decoded table differs from the old one in slot `idx` only, which holds the low `elem_bits` bits of `elt` |
| Packed.DecodesZero | qf.h:88-91 | an all-zero table decodes to all-empty slots |
| QuotientFilter.Filter.GetElem | qf.h:127-128 | `get_elem` returns the decoded slot `idx`, below `2^elem_bits` |
| QuotientFilter.Filter.SetElem | qf.h:130-131 | `set_elem` updates the table words in place; the decoded table changes only in slot `idx`, to the low `elem_bits` bits of `elt` |
| QuotientFilter.IncrMasked | qf.h:133 | `(idx + 1) & index_mask` is `idx + 1`, or 0 past the last slot |
| QuotientFilter.DecrMasked | qf.h:135 | `(idx - 1) & index_mask` in 64-bit arithmetic is `idx - 1`, or the last slot from 0 |
| QuotientFilter.Filter.Incr | qf.h:133 | `incr` returns the next slot round the table |
| QuotientFilter.Filter.Decr | qf.h:135 | `decr` returns the previous slot round the table |
| Slot.IsOccupied | qf.h:137 | `is_occupied` tests bit 0 (`Slot.FlagBits`). In a valid table a slot is occupied exactly when some stored remainder has it as its canonical slot (`Runs.FlagMeaning`) |
| Slot.IsContinuation | qf.h:143 | `is_continuation` tests bit 1 (`Slot.FlagBits`). In a valid table it holds exactly when the remainder is displaced and the slot before holds one of the same quotient (`Runs.FlagMeaning`) |
| Slot.IsShifted | qf.h:149 | `is_shifted` tests bit 2 (`Slot.FlagBits`). In a valid table it holds exactly when the remainder is not in its canonical slot (`Runs.FlagMeaning`) |
| Slot.GetRemainder | qf.h:155 | `get_remainder` is the bits above the three flags (`Slot.FlagBits`, `Slot.Decode`) |
| Slot.IsClusterStart | qf.h:159 | `is_cluster_start`: occupied, neither continuation nor shifted. In a valid table it holds exactly when the slot holds a remainder in its own canonical slot (`Runs.ClusterStartMeaning`) |
| Slot.IsRunStart | qf.h:161 | `is_run_start`: not a continuation, and occupied or shifted. In a valid table it holds exactly when the slot holds the first remainder of its quotient's run (`Runs.RunStartMeaning`) |
| Slot.FlagBits | qf.h:137-155 | the occupied, continuation and shifted flags are bits 0, 1 and 2; in a slot of `r + 3` bits the remainder is the `r` bits above them |
| Runs.FlagMeaning | qf.h:137-149 | in a valid table, occupied means some stored remainder has this canonical slot, and conversely. A remainder is shifted exactly when it is displaced, and a continuation exactly when it is displaced and follows one of the same quotient |
| Runs.ClusterStartMeaning | qf.h:159 | in a valid table, `is_cluster_start` holds exactly when the slot holds a remainder that sits in its canonical slot |
| Runs.RunStartMeaning | qf.h:161 | in a valid table, `is_run_start` holds exactly when the slot holds a remainder that is in its canonical slot or follows a slot of another quotient |
| Slot.SetOccupied | qf.h:139 | sets the occupied flag; the other two flags and the remainder are unchanged |
| Slot.ClrOccupied | qf.h:141 | clears the occupied flag; the other two flags and the remainder are unchanged |
| Slot.SetContinuation | qf.h:145 | sets the continuation flag; the other two flags and the remainder are unchanged |
| Slot.ClrContinuation | qf.h:147 | clears the continuation flag; the other two flags and the remainder are unchanged |
| Slot.SetShifted | qf.h:151 | sets the shifted flag; the other two flags and the remainder are unchanged |
| Slot.ClrShifted | qf.h:153 | clears the shifted flag; the other two flags and the remainder are unchanged |
| Slot.Decode | qf.h:137-155 | a slot value is its remainder times 8 plus its three flag bits |
| Slot.SameFields | qf.h:137-155 | two slot values with the same three flags and the same remainder are equal |
| Slot.EmptyIffNoFlags | qf.h:157 | a slot is empty exactly when none of its three flags is set |
| Slot.Entry | qf.h:155 | the slot value of a remainder has no flag set, and `get_remainder` gives the remainder back |
| Slot.SlotBound | qf.h:23 | a slot value fits in `r + 3` bits exactly when its remainder fits in `r` bits |
| Fingerprint.Quotient | qf.h:163 | `hash_to_quotient` is below `2^q` |
| Fingerprint.Remainder | qf.h:165 | `hash_to_remainder` is below `2^r` |
| Fingerprint.Fp | qf.h:51-53 | the fingerprint of a hash, its low `q + r` bits, is below `2^(q+r)` |
| Fingerprint.Join | qf.h:115-120 | the remainder or-ed with `quotient << r`, the value `qfi_next` returns. `Fingerprint.SplitJoin` shows that splitting it gives the quotient and remainder back |
| Fingerprint.FpIsJoin | qf.h:51-53 | the fingerprint is the remainder with the quotient above it |
| Fingerprint.SplitJoin | qf.h:115-120 | joining a quotient and a remainder into a fingerprint and splitting it again gives both back, and the fingerprint is below `2^(q+r)` |
| Fingerprint.SameFingerprint | qf.h:51-53 | two hashes have the same quotient and remainder exactly when their low `q + r` bits agree |
| Fingerprint.FpIdentity | qf.h:76 | a hash is its own fingerprint exactly when it has no bit set above bit `q + r - 1` |
| Fingerprint.HighBits | qf.h:76 | `hash >> (q + r)` is zero exactly when the hash is below `2^(q+r)` |
| QuotientFilter.Filter.Key | qf.h:163-165 | the (quotient, remainder) pair a hash is filed under, below `2^q` and `2^r`. It depends only on the hash's low `q + r` bits (`Fingerprint.SameFingerprint`), and a hash below `2^(q+r)` is its join (`QuotientFilter.JoinKey`) |
| QuotientFilter.TableWords | qf.h:29 | the table has enough 64-bit words for `2^q` slots of `elem_bits` bits |
| QuotientFilter.WideRemainderTruncated | qf.h:42 | with `q = 1, r = 63`, which the parameter check accepts, building a slot value in 64 bits loses the remainder's top bits |
| QuotientFilter.EntryFits | qf.h:42 | when `r + 3 <= 64`, the 64-bit slot value of every `r`-bit remainder is exact and gives the remainder back |
| QuotientFilter.Filter.constructor | qf.h:38-44 | a new filter is valid and empty, with zero entries and a zeroed table of `2^q` slots |
| QuotientFilter.Filter.Init | qf.h:38-44 | `qf_init` fails exactly on `q == 0`, `r == 0`, `q + r > 64` (and `r + 3 > 64`, see Findings); otherwise the filter is valid and empty with `2^q` slots |
| Layout.CountFree | qf.h:55 | fewer entries than slots leaves a slot free, so an insert below capacity has room |
| Runs.RunHead | qf.h:167 | when `fq` has a run, the located slot holds a remainder of `fq` |
| Runs.RunMember | qf.h:167 | every remainder of `fq` lies in the run that begins at the located slot, connected to it by continuations |
| Runs.RunSorted | qf.h:167 | along a run the remainders strictly increase |
| Runs.SearchFound | qf.h:59-62 | the run scan stops on `fr` only if `(fq, fr)` is stored |
| Runs.SearchPassed | qf.h:59-62 | a remainder above `fr` in `fq`'s run means `(fq, fr)` is not stored |
| Runs.SearchEnded | qf.h:59-62 | reaching the end of `fq`'s run, with every remainder below `fr`, means `(fq, fr)` is not stored |
| Runs.NotOccupied | qf.h:59-62 | a slot whose occupied flag is clear is the canonical slot of no stored remainder |
| Runs.EmptyTable | qf.h:38-44 | an all-empty table satisfies the invariant and stores nothing |
| Runs.NothingCounted | qf.h:110-113 | a table counting no entries stores no fingerprint |
| QuotientFilter.Filter.FindRunIndex | qf.h:167 | `find_run_index` walks back to the cluster start and forward run by run; it returns where `fq`'s run begins (or will begin, while `fq` is being given its first remainder), and that slot holds a remainder of `fq` |
| QuotientFilter.Filter.InsertInto | qf.h:169 | `insert_into` writes `elt` at `s` and moves every remainder from there up to the first free slot one slot on, marked shifted; occupied flags stay with their slots (`ShiftInsert`) |
| QuotientFilter.Filter.PushStep | qf.h:169 | one step of `insert_into`'s loop writes the value the cascade defines and carries the displaced remainder on |
| QuotientFilter.StepValues | qf.h:169 | the loop body's values. The slot keeps its own occupied flag and takes the carried element's continuation flag, shifted flag and remainder. A displaced remainder moves on shifted, not occupied, with its continuation flag and remainder; an empty slot's value is carried on as it is |
| QuotientFilter.InsertStep | qf.h:169 | those values agree with the cascade's definition (`Cascade`) and stay within `elem_bits` bits |
| QuotientFilter.CarryStep | qf.h:169 | one step's written value is the cascade's value at that slot, and what it carries on is the displaced remainder |
| Insertion.InsertKeepsInv | qf.h:51-57 | the cascade re-establishes the table invariant |
| Insertion.ContentsAfter | qf.h:51-57 | the cascade adds exactly the fingerprint `(fq, fr)` |
| Insertion.InsertCount | qf.h:51-57 | the cascade fills exactly one free slot |
| Insertion.FillEmpty | qf.h:51-57 | writing `fr` into an empty canonical slot keeps the invariant, adds exactly `(fq, fr)` (which was absent) and one entry |
| Insertion.MarkPending | qf.h:51-57 | setting `fq`'s occupied flag before its first remainder is inserted changes neither the contents nor the count |
| Placement.CascadeReady | qf.h:51-57 | marking the old run head a continuation keeps the stretch `insert_into` shifts |
| Placement.Cascaded | qf.h:51-57 | after the cascade the invariant holds, the contents gain `(fq, fr)` and the count grows by one |
| QuotientFilter.Filter.Insert | qf.h:51-57 | `qf_insert` fails exactly when the filter is full. On success the stored set gains the fingerprint of `hash`: `entries` grows by one for a new fingerprint. For one already present, nothing changes, not even the table words (qf.h:70-71) |
| QuotientFilter.Filter.InsertNewRun | qf.h:51-57 | inserting into a quotient with no run adds the new fingerprint and one entry |
| QuotientFilter.Filter.InsertIntoRun | qf.h:51-57 | inserting into an existing run finds `fr` exactly when it is stored, and then changes nothing, not even the table words; otherwise it adds `(fq, fr)` and one entry |
| QuotientFilter.Filter.Place | qf.h:51-57 | placing the new slot value at its position keeps the filter valid and adds exactly `(fq, fr)` and one entry |
| QuotientFilter.Filter.InsertAt | qf.h:51-57 | the old head is marked a continuation where needed, then `insert_into` cascades and the count grows by one |
| QuotientFilter.Filter.ScanRun | qf.h:59-62 | the scan of `fq`'s run stops at `fr`, at the first larger remainder, or at the run's last slot |
| QuotientFilter.Filter.MayContain | qf.h:59-62 | `qf_may_contain` is true exactly when the fingerprint of `hash` is stored, so it gives no false negatives |
| QuotientFilter.Filter.Remove | qf.h:64-78 | `qf_remove` returns false, changing nothing, exactly when `hash` has a bit set above bit `q + r - 1`. Otherwise the fingerprint is removed from the stored set, `entries` drops by one if it was present, and an absent fingerprint changes nothing. The no-op cases leave the table words as they were |
| QuotientFilter.Filter.RemoveFromRun | qf.h:64-78 | scanning `fq`'s run and removing `fr` leaves the stored set without `(fq, fr)`. The count drops by one only if it was there; otherwise nothing changes, not even the table words |
| QuotientFilter.Filter.RemoveAt | qf.h:64-78 | removing the found remainder keeps the filter valid and removes exactly `(fq, fr)` and one entry |
| QuotientFilter.Filter.ClearIfAlone | qf.h:64-78 | a run about to lose its only remainder has `fq`'s occupied flag cleared |
| QuotientFilter.Filter.FixRunHead | qf.h:64-78 | the remainder that moves into a removed run head is no longer a continuation, and is unshifted when it is now in its canonical slot |
| QuotientFilter.Filter.DeleteEntry | qf.h:171 | `delete_entry` moves every remainder from `s` up to the next empty slot or cluster start one slot back; each keeps the occupied flag of the slot it lands in, the quotient is tracked, and the last slot is emptied (`ShiftDelete`) |
| QuotientFilter.Filter.ShiftStep | qf.h:171 | one step of `delete_entry`'s loop writes the moved remainder with the flags `Slide` defines |
| QuotientFilter.Filter.NextOccupied | qf.h:171 | stepping on from `quot` to the next occupied slot reaches that slot |
| Deletion.KillAlone | qf.h:64-78 | when the removed remainder is a run start not followed by a continuation, it is its quotient's only one |
| Deletion.VacatedFree | qf.h:171 | the slot `delete_entry` empties is the canonical slot of no remaining remainder |
| Deletion.DeleteKeepsInv | qf.h:171 | removing a remainder and closing the gap keeps the table invariant |
| Deletion.ContentsAfterDelete | qf.h:171 | the stored set loses exactly `(fq, fr)` |
| Deletion.CountAfterDelete | qf.h:171 | exactly one slot fewer holds a remainder |
| Deletion.RemoveDone | qf.h:64-78 | after the whole removal the invariant holds, `(fq, fr)` was stored and is gone, and there is one entry fewer |
| QuotientFilter.Filter.Clear | qf.h:88-91 | `qf_clear` zeroes the table words in place; the filter is valid with no fingerprints and no entries |
| QuotientFilter.Iterator.Start | qf.h:105-108 | `qfi_start` positions the cursor at the first cluster start; the iteration is done at once exactly when the filter stores nothing |
| QuotientFilter.Iterator.Done | qf.h:110-113 | `qfi_done` is true exactly when the fingerprints handed out are all the stored ones. While it is false, fewer than `entries` have been handed out |
| Iteration.SeenCard | qf.h:115-120 | the number of remainders visited is the number of distinct fingerprints handed out |
| Iteration.ContentsCard | qf.h:110-113 | a valid table holds as many distinct fingerprints as it has used slots |
| Iteration.CursorPending | qf.h:110-113 | while fewer remainders have been visited than the table holds, some stored fingerprint is still unseen |
| QuotientFilter.Iterator.Next | qf.h:115-120 | `qfi_next` returns a value below `2^(q+r)` whose quotient and remainder are a stored fingerprint not handed out before; the visited count grows by one |
| QuotientFilter.Iterator.Skip | qf.h:115-120 | passing an empty slot moves the cursor on and hands out nothing |
| QuotientFilter.Iterator.Take | qf.h:115-120 | passing a used slot hands out its fingerprint, which is stored and new |
| QuotientFilter.Iterator.NewQuotient | qf.h:115-120 | the quotient the iterator tracks: the slot itself at a cluster start, the next occupied slot at a run start, and unchanged otherwise |
| Iteration.SeenAll | qf.h:110-113 | once as many remainders have been visited as the table holds, all stored fingerprints have been seen |
| Iteration.SeenStep | qf.h:115-120 | visiting one more slot adds its fingerprint, which had not been seen |
| Iteration.CursorDone | qf.h:110-113 | at `visited == entries`, the seen set is the stored set |
| Iteration.CursorTake | qf.h:115-120 | the tracked quotient is the canonical slot of the remainder at the cursor, so the fingerprint handed out is stored and new |
| Iteration.CursorSkip | qf.h:115-120 | stepping over an empty slot keeps the cursor consistent |
| Iteration.CursorRunStart | qf.h:115-120 | at a run start inside a cluster, the run's canonical slot is the next occupied slot after the current quotient |
| Iteration.BelowAtMost | qf.h:110-113 | no more remainders can be visited than there are slots |
| QuotientFilter.JoinKey | qf.h:115-120 | a hash below `2^(q+r)` is the join of the quotient and remainder it is filed under |
| QuotientFilter.CopyAll | qf.h:80-86 | iterating over `qf` and inserting each value into `qfout` adds exactly `qf`'s fingerprints to `qfout`'s |
| QuotientFilter.CopyOne | qf.h:80-86 | one round of that loop inserts the value just handed out |
| QuotientFilter.Merge | qf.h:80-86 | `qf_merge` builds a filter with `q = 1 + max(q1, q2)` and `r = max(r1, r2)`, or none when those are refused. Its fingerprints, as `(q+r)`-bit values, are the union of both inputs' |

## Left out

- `qf_init2`, `qf_destroy`, `quotient_copy` and the ENOMEM failures (qf.h:42, qf.h:46-49, qf.h:84, qf.h:100-103, qf.h:122-125) are memory management. Allocation cannot fail in the model.
- `qf_table_size` (qf.h:93-98) is a byte count for the allocator, and the header does not give its formula. `TableWords` gives the number of words the model allocates instead.
- The mask fields `qf_index_mask`, `qf_rmask` and `qf_elem_mask` (qf.h:25-27) are not stored. Each masking `x & LOW_MASK(n)` is written as the bit field `Field(x, 0, n)`.
- `qf_max_size` is `2^q`, the capacity the header states (qf.h:39). A load-factor cap below `2^q` is not modelled.
- Table words are `nat` values kept below `2^64` by the invariant instead of `uint64_t`. Hashes are `u64`, a subset type of `int`.
- Hashing caller values is not modelled: callers pass 64-bit hashes. The C linkage and preprocessor scaffolding are not modelled either.
- Concurrency is not modelled. Nothing in the interface is synchronised, and the model assumes a single owner.
- The entry count `qf_entries` is an unbounded `nat`. The `uint32_t` field (qf.h:24) would wrap once more than `2^32` remainders are stored, which needs `q > 32`.
- QuotientFilter.Filter.Remove: `hash >> (q + r)` is modelled as the mathematical shift. With `q + r == 64`, C leaves that shift undefined.
- QuotientFilter.Filter.Remove: follows the header (qf.h:76), where only excess high bits make the result false. An absent fingerprint returns true and changes nothing. Some descriptions of the operation also report false for an absent fingerprint.
- QuotientFilter.Iterator.Next: the caution against calling `qfi_next` after `qfi_done` (qf.h:118) is a precondition, so the model has no behaviour for that call.
- QuotientFilter.Merge: creates and returns `qfout` instead of initialising a caller's struct (qf.h:86). Only a parameter refusal gives no filter.
- The iterator's contracts speak of the visited count and the set of fingerprints handed out. They do not fix the order between clusters, which depends only on where the cursor starts.
- Changing a filter while an iterator is in use is not modelled. Every iterator method requires the filter to be valid and leaves it unchanged.

## Findings

| source | as written | input that shows it | evidently intended | confidence | as-written member | corrected member |
|---|---|---|---|---|---|---|
| qf.h:42 | `qf_init` refuses only `q == 0`, `r == 0` and `q + r > 64`, but a slot needs `r + 3` bits of a `uint64_t` | `q = 1, r = 63`: the remainder `2^62` becomes slot value `(2^62 << 3) mod 2^64 = 0`, which reads back as remainder 0 | also refuse `r + 3 > 64`, so that every remainder fits in a slot | not executed | QuotientFilter.WideRemainderTruncated | QuotientFilter.EntryFits |
