# Buffer iterators of a LevelDB-derived engine, in Dafny

The engine keeps an in-memory *buffer* of files that are not yet committed to
the level structure. Each buffer node records the key range `[smallest,
largest]` of one file and the file's number; later nodes are newer, and ranges
may overlap. This project models the iterators over that buffer and the
classic LevelDB two-level iterator they imitate:

- `BufferIterator` (db/buffer_iterator.cc): an index over the nodes whose only
  state is a position, `|nodes|` being the single invalid one. `Seek` scans
  backward for the newest node whose range contains the key. `value()` builds a
  16-byte handle (fixed64 file number, fixed64 file size) from the first file
  list entry with the node's number.
- `BufferNodeIterator`: a data iterator opened for one node. Its validity is
  clamped to the node's range, and its `Seek` is an exact-match probe that
  records whether the key was found.
- `BufferTwoLevelIterator`: the two composed. A lookup tries the newest node
  containing the key, opens its file, probes it exactly, and on a miss steps
  back to older containing nodes. An open data iterator is reused when the
  current handle equals the one it was opened with.
- The classic `TwoLevelIterator` (table/two_level_iterator.cc): an index
  iterator whose values are block handles, with data iterators opened on
  demand, empty blocks skipped in both directions, and a first-error-wins
  status.
- The older header `BufferIterator` (db/buffer_iterator.h), whose `Seek` is a
  binary search, `FindNode`.

Keys are `int`, standing for the engine's single key order. The opener
(`block_function_` with its argument and read options) is a function from
handle bytes to a `Block`: the entries of the file or block in order, plus
the status its iterator reports. `DataIter` stands in for the table and block
iterators the opener returns. Its `Seek(t)` lands on the first entry whose
key is at least `t`, or past the end.

The key results are:

- `FreshLookup`: for any buffer, file list and opener, a lookup on a fresh
  buffer iterator succeeds exactly when some node both contains the key and
  has it in its file. It then stops on the newest such node, valid on the key.
- `HarmlessScansAgree` and `RepeatedSeekAgrees`: a lookup repeated from where
  the previous one left the iterator stops on the same node with the same
  result, provided the data iterator it starts from is bound to a node with
  `smallest <= largest`.
- The scans `ScanForward` and `ScanBackward`: a classic two-level iterator
  yields the concatenation of all blocks, forwards and backwards.
- `SeekFirstAtLeast`: a classic seek lands on the lower bound of that
  concatenation.
- `SaveErrorKeepsFirst`: the saved status is the first error among those
  saved. `SkippedErrorForward` and `SkippedErrorBackward`: the skips save the
  status of every block they leave for another handle or for the end of the
  index, so a corrupt block they pass over leaves the iterator's status an
  error (`SkippedCorruptionIsReported`).
- Encoding: handles decode back to the file's number and size, and equal
  handle bytes mean the same file.

The model follows the code as written. Where the code does not do what its
authors evidently meant, the corrected version is modelled beside it, with the
intended property proved about it; "## Findings" lists these pairs. Members
named `…Intended` or `…PerNode` are the corrected halves.

A repeated `Seek` should give the same result as a single one. The lookup as
written (`BufferTwoLevelIterator.Seek`) does. Its node seek never applies the
node's range (first finding), so the node a lookup stops on does not depend on
the data iterator left open by the previous operation, as long as that
iterator is bound to a node with `smallest <= largest`.

It can, however, report a hit while the iterator is not valid.
`InitDataBlock` keeps an open data iterator, with the node it was bound to,
whenever the handle bytes are equal. Two nodes of the same file therefore share
one iterator, bound to whichever node opened it (second finding).

- `RepeatedLookupAgrees`: after `SeekToFirst`, two lookups of 7 both succeed
  on node 1 with `Valid()` false.
- `RepeatedLookupDisagrees`: with the range test corrected but the cache as
  written (`SeekIntended`), the same state makes the first lookup miss and the
  second succeed.
- `ScanRepeatsKeyOfSharedFile`: the kept binding makes a forward scan show
  key 2 twice and never 7.
- `PerNodeRollOverShowsLaterKey`: `InitDataBlockPerNode`, the cache as
  intended, rebinds the reused file to the current node, and the same
  roll-over shows 7.

Both lookups state their end position as `ScanFrom` of the binding the previous
operation left, and the binding they end with as `ScanBinding`. Every newer
node that holds the key was passed over only through a binding whose range
test rejects the key (`PassedOver`).

## Model

| member | source | states |
|---|---|---|
| Common.LowerBound | db/buffer_iterator.cc:137 | the landing position of a data seek: every entry before it is below the target, the entry at it (if any) is at least the target |
| Common.FoundIffPresent | db/buffer_iterator.cc:137-139 | on sorted data the exact probe succeeds iff the target is one of the keys |
| Common.LowerBoundUnique | table/two_level_iterator.cc:325-330 | the lower bound is the only position separating keys below the target from the first key at or above it |
| Coding.DecodeEncodeLE | db/buffer_iterator.cc:27-28 | decoding the low `n` little-endian bytes of any `x < 256^n` gives back `x` |
| Coding.Fixed64RoundTrip | db/buffer_iterator.cc:27-28 | the 8-byte fixed64 encoding of any 64-bit value decodes to that value |
| Coding.HandleRoundTrip | db/buffer_iterator.cc:27-29 | a 16-byte handle decodes to the file number and file size it was built from |
| Coding.HandleInjective | db/buffer_iterator.cc:161 | handle bytes are equal iff number and size are equal, so the cache test compares files |
| BufferIterators.Truncate32 | db/buffer_iterator.cc:25 | the node number read into a `uint32_t` is below 2^32 and unchanged when it already fits |
| BufferIterators.FindFile | db/buffer_iterator.cc:37-45 | returns the first file list position with the number, and none iff no entry has it |
| BufferIterators.NodeHandleDecodes | db/buffer_iterator.cc:22-34 | a node's handle is empty iff its file is not listed; otherwise it is 16 bytes decoding to that file's number and size, the number equal to the truncated node number |
| BufferIterators.LatestContaining | db/buffer_iterator.cc:90-99 | the backward scan from a position stops on the highest node at or below it containing the key, having passed only non-containing nodes, or ends invalid when none contains it |
| BufferIterators.NewestContaining | db/buffer_iterator.cc:69-73 | the position a seek picks is the newest node containing the key, and invalid iff no node contains it |
| BufferIterators.SeekFindsTheOnlyContainingNode | db/buffer_iterator.cc:69-73 | in a buffer of ordered disjoint ranges, a seek for a key inside a node's range lands on that node |
| BufferIterators.BufferIterator.constructor | db/buffer_iterator.cc:9-13 | a new index starts on the invalid position `|nodes|` |
| BufferIterators.BufferIterator.Valid | db/buffer_iterator.cc:15 | within the positions an index can take, invalid exactly at `|nodes|` |
| BufferIterators.BufferIterator.Key | db/buffer_iterator.cc:17-20 | the index key is the current node's largest key, an upper bound of every key the node contains |
| BufferIterators.BufferIterator.BNode | db/buffer_iterator.cc:48-51 | the current node, one of the buffer's nodes |
| BufferIterators.BufferIterator.SeekResult | db/buffer_iterator.cc:60-62 | an index lookup succeeded iff the index is positioned |
| BufferIterators.BufferIterator.Value | db/buffer_iterator.cc:22-34 | the loop over the file list returns the node's handle: 16 bytes of the first matching file, or empty |
| BufferIterators.BufferIterator.File | db/buffer_iterator.cc:37-45 | the loop returns the first file list entry whose number is the truncated node number, and none iff there is no such entry |
| BufferIterators.BufferIterator.Next | db/buffer_iterator.cc:55-58 | from a valid position the index moves one node forward |
| BufferIterators.BufferIterator.Prev | db/buffer_iterator.cc:64-67 | from a valid position the index moves one back, from 0 to the invalid position |
| BufferIterators.BufferIterator.Seek | db/buffer_iterator.cc:69-73 | lands on the newest node containing the key, and is invalid iff none contains it |
| BufferIterators.BufferIterator.SeekFromHere | db/buffer_iterator.cc:75-77 | continues the backward scan from the current position and never moves forward |
| BufferIterators.BufferIterator.SeekToFirst | db/buffer_iterator.cc:79-82 | position 0, valid iff the buffer is not empty |
| BufferIterators.BufferIterator.SeekToLast | db/buffer_iterator.cc:84 | the last node, or 0 on an empty buffer, which is the invalid position |
| BufferIterators.BufferIterator.FindLatestNode | db/buffer_iterator.cc:90-99 | the `for (;Valid();Prev())` loop ends on the scan result from the starting position |
| DataIterators.DataIter.constructor | db/buffer_iterator.cc:164 | a freshly opened data iterator holds the opener's entries and status and is not positioned |
| DataIterators.DataIter.Seek | db/buffer_iterator.cc:137 | the data seek lands on the lower bound of the target |
| BufferNodeIterators.ExactSeekAsWritten | db/buffer_iterator.cc:130-140 | the exact seek as written: a hit iff the range test, true only on a range inverted around the target, lets it through and the data lands on the target; the position is the target's lower bound unless the test fires |
| BufferNodeIterators.ExactSeek | db/buffer_iterator.cc:130-140 | the exact seek with the range test as intended: hit iff the target is in the node's range and the data lands on it; a hit leaves the iterator valid on the target |
| BufferNodeIterators.AsWrittenGuardIgnoresRange | db/buffer_iterator.cc:132-133 | the range test as written never fires on a node with `smallest <= largest`, so the seek ignores the node's range |
| BufferNodeIterators.AsWrittenReportsHitOutsideRange | db/buffer_iterator.cc:130-140 | node `[2, 4]` over data holding 9: the seek as written reports a hit on 9 while the iterator is not valid, and the intended seek misses |
| BufferNodeIterators.ClampStartsAtLowerBound | db/buffer_iterator.cc:108-113 | on sorted data every in-range entry is at or after the landing position of a seek to `smallest`, which is then in range too |
| BufferNodeIterators.SeekToFirstLandsOnFirstInRange | db/buffer_iterator.cc:142 | after `SeekToFirst` the node iterator is valid iff some entry lies in its range, it sits on the first such entry, and on `smallest` when the data holds it |
| BufferNodeIterators.SeekToLastValidIff | db/buffer_iterator.cc:144 | after `SeekToLast` the node iterator is valid iff the data holds `largest` itself, and it then sits on it |
| BufferNodeIterators.BufferNodeIterator.constructor | db/buffer_iterator.cc:168 | wraps the given node and data iterator, with no hit recorded |
| BufferNodeIterators.BufferNodeIterator.Valid | db/buffer_iterator.cc:108-113 | valid iff the wrapped iterator is valid and its key lies in `[smallest, largest]` |
| BufferNodeIterators.BufferNodeIterator.Key | db/buffer_iterator.cc:115-118 | the delegated key lies in the node's range |
| BufferNodeIterators.BufferNodeIterator.Value | db/buffer_iterator.cc:147-149 | the value of the wrapped iterator's current entry, delegated without the clamp |
| BufferNodeIterators.BufferNodeIterator.SeekResult | db/buffer_iterator.cc:103-105 | the outcome recorded by the last `Seek` |
| BufferNodeIterators.BufferNodeIterator.Next | db/buffer_iterator.cc:120-123 | the wrapped iterator moves one entry forward |
| BufferNodeIterators.BufferNodeIterator.Prev | db/buffer_iterator.cc:125-128 | the wrapped iterator moves one entry back, becoming invalid before the first |
| BufferNodeIterators.BufferNodeIterator.Seek | db/buffer_iterator.cc:130-140 | the recorded result and new position are those of `ExactSeekAsWritten` |
| BufferNodeIterators.BufferNodeIterator.SeekIntended | db/buffer_iterator.cc:130-140 | the recorded result and new position are those of `ExactSeek`, the intended range test |
| BufferNodeIterators.BufferNodeIterator.SeekToFirst | db/buffer_iterator.cc:142 | the wrapped iterator seeks to the node's `smallest` |
| BufferNodeIterators.BufferNodeIterator.SeekToLast | db/buffer_iterator.cc:144 | the wrapped iterator seeks to the node's `largest` |
| BufferTwoLevelIterators.ScanKeepsPassedOver | db/buffer_iterator.cc:220 | the backward index scan skips only nodes that do not contain the key, so it passes over no node holding it |
| BufferTwoLevelIterators.MissKeepsPassedOver | db/buffer_iterator.cc:226-228 | a probed node that missed either lacks the key or was reached through a kept binding whose range test rejects the key |
| BufferTwoLevelIterators.Rebind | db/buffer_iterator.cc:160-169 | after `InitDataBlock` the binding carries the current handle, and its node is the current one or the kept binding |
| BufferTwoLevelIterators.ScanFromRound | db/buffer_iterator.cc:213-228 | one round of the lookup loop: scan, rebind, probe, and either stop or resume one node lower |
| BufferTwoLevelIterators.ScanBindingRound | db/buffer_iterator.cc:213-228 | the same round for the binding: none when the scan finds no node, the probed binding on a hit, otherwise the binding the next round ends with |
| BufferTwoLevelIterators.WellFormedBindingHarmless | db/buffer_iterator.cc:132-133 | as written, a binding to a node with `smallest <= largest` is harmless: its range test never rejects |
| BufferTwoLevelIterators.ProbeAgreesWithHit | db/buffer_iterator.cc:226-227 | through a harmless binding, the probe of a containing node answers whether that node holds the key, and the new binding is harmless |
| BufferTwoLevelIterators.ScanFindsNewestHit | db/buffer_iterator.cc:210-229 | from a harmless binding the lookup stops on the newest node at or below its start that holds the key, and fails only when none does |
| BufferTwoLevelIterators.HarmlessScansAgree | db/buffer_iterator.cc:210-229 | two lookups from harmless bindings stop on the same node |
| BufferTwoLevelIterators.BufferTwoLevelIterator.constructor | db/buffer_iterator.cc:184 | a new iterator owns an unpositioned index over the given nodes and file list and has no data iterator, so it is not valid |
| BufferTwoLevelIterators.BufferTwoLevelIterator.Valid | db/buffer_iterator.cc:183-186 | valid iff a data iterator is open and its entry lies in the range of the node it is bound to |
| BufferTwoLevelIterators.BufferTwoLevelIterator.Key | db/buffer_iterator.cc:188-191 | the key of the data iterator's entry, inside its bound node's range |
| BufferTwoLevelIterators.BufferTwoLevelIterator.Value | db/buffer_iterator.cc:193-196 | the value of the data iterator's entry |
| BufferTwoLevelIterators.BufferTwoLevelIterator.SeekResult | db/buffer_iterator.cc:175-180 | a lookup succeeded iff the index is positioned and the data iterator recorded a hit |
| BufferTwoLevelIterators.BufferTwoLevelIterator.InitDataBlock | db/buffer_iterator.cc:155-172 | no data iterator iff the index is invalid; on an equal handle the old iterator and its node binding are kept; otherwise a fresh, unpositioned iterator bound to the current node, with the handle recorded |
| BufferTwoLevelIterators.BufferTwoLevelIterator.InitDataBlockPerNode | db/buffer_iterator.cc:160-169 | the cache as intended: no data iterator iff the index is invalid; otherwise one bound to the current node with the current handle recorded, reusing the open file when the handle is unchanged |
| BufferTwoLevelIterators.BufferTwoLevelIterator.Seek | db/buffer_iterator.cc:210-229 | the lookup as written. True iff the index is positioned. The node then contains the key, its file holds it, and the data iterator is on it; it is valid iff its bound node contains the key. The end position and binding are `ScanFrom` and `ScanBinding` of the previous binding. Newer nodes holding the key were passed over only through that binding, and none were when it is bound to a well-formed node |
| BufferTwoLevelIterators.BufferTwoLevelIterator.SeekIntended | db/buffer_iterator.cc:210-229 | the lookup with the intended range test: true iff the index is positioned, and then valid on the key in a node holding it; end position and binding as for `Seek`, under that test |
| BufferTwoLevelIterators.BufferTwoLevelIterator.Lookup | db/buffer_iterator.cc:213-228 | the do-while loop under either range test ends in the outcome of `SeekOutcome`, with position `ScanFrom` and binding `ScanBinding` of the starting binding |
| BufferTwoLevelIterators.BufferTwoLevelIterator.SeekStep | db/buffer_iterator.cc:214-228 | one pass of the do-while body matches one round of `ScanFrom` and `ScanBinding`, stopping on a hit or an exhausted index |
| BufferTwoLevelIterators.BufferTwoLevelIterator.Advance | db/buffer_iterator.cc:214-220 | first `SeekToLast`, then `Prev`, followed by the scan; the index strictly decreases or becomes invalid |
| BufferTwoLevelIterators.BufferTwoLevelIterator.Probe | db/buffer_iterator.cc:226-227 | `InitDataBlock` then the exact seek under the chosen range test: a hit iff that test lets the key through for the bound node and the bound file holds it, leaving the data iterator on the key |
| BufferTwoLevelIterators.BufferTwoLevelIterator.Next | db/buffer_iterator.cc:198-202 | one entry forward inside the bound node's range; otherwise the index moves forward once and, if positioned, the data iterator is the old one when the new node has the recorded handle and a new one bound to the new node otherwise, at the seek of its bound node's `smallest` |
| BufferTwoLevelIterators.BufferTwoLevelIterator.Prev | db/buffer_iterator.cc:204-208 | one entry back inside the range; otherwise the index moves back once and the data iterator, kept or new as for `Next`, is at the seek of its bound node's `largest` |
| BufferTwoLevelIterators.BufferTwoLevelIterator.SeekToFirst | db/buffer_iterator.cc:231-235 | index on node 0; a data iterator iff the buffer is not empty, kept or new as for `Next`, at the seek of its bound node's `smallest` |
| BufferTwoLevelIterators.BufferTwoLevelIterator.SeekToLast | db/buffer_iterator.cc:237-241 | index on the last node; a data iterator iff the buffer is not empty, kept or new as for `Next`, at the seek of its bound node's `largest` |
| BufferTwoLevelIterators.BufferTwoLevelIterator.MaybeGotoNextNode | db/buffer_iterator.cc:243-250 | nothing changes while the data iterator is valid; otherwise the index moves forward once and the data iterator, kept or new as for `Next`, seeks its bound node's `smallest` |
| BufferTwoLevelIterators.BufferTwoLevelIterator.MaybeGotoPrevNode | db/buffer_iterator.cc:252-259 | nothing changes while the data iterator is valid; otherwise the index moves back once and the data iterator, kept or new, seeks its bound node's `largest` |
| BufferTwoLevelIterators.FreshLookup | db/buffer_iterator.cc:210-229 | on a fresh iterator a lookup succeeds iff some node contains the key and has it in its file, and then stops on the newest such node, valid on the key |
| BufferTwoLevelIterators.RepeatedSeekAgrees | db/buffer_iterator.cc:210-229 | from a data iterator bound to a well-formed node, a lookup as written repeated stops on the same node with the same result |
| BufferTwoLevelIterators.LookupFallsBackToOlderNode | db/buffer_iterator.cc:210-229 | nodes `[2, 4]` and newer `[3, 6]`, key 3 only in the older node's file: the lookup misses the newer node, falls back and ends valid on key 3 at node 0 |
| BufferTwoLevelIterators.LookupOutsideAllRanges | db/buffer_iterator.cc:221-224 | one instance: key 26 over nodes `[2, 4]` and `[3, 6]`, outside both ranges, is not found and leaves the iterator invalid (`FreshLookup` states the general case) |
| BufferTwoLevelIterators.RepeatedLookupAgrees | db/buffer_iterator.cc:161-162 | nodes `[1, 3]` and `[5, 9]` of one file holding 2 and 7: after `SeekToFirst` two lookups of 7 as written both succeed on node 1 with `Valid()` false, through the kept iterator bound to `[1, 3]` |
| BufferTwoLevelIterators.RepeatedLookupDisagrees | db/buffer_iterator.cc:161-162 | the same state with the intended range test: the first lookup of 7 fails through the kept binding and drops the iterator, and the repeated lookup succeeds |
| BufferTwoLevelIterators.ScanRepeatsKeyOfSharedFile | db/buffer_iterator.cc:243-250 | the same nodes: `SeekToFirst` shows 2, `Next` rolls over to node 1 through the kept iterator and shows 2 again, and the next `Next` ends the scan, so 7 is never shown |
| BufferTwoLevelIterators.PerNodeRollOverShowsLaterKey | db/buffer_iterator.cc:243-250 | the same roll-over with `InitDataBlockPerNode` shows 7 on node 1 |
| TwoLevelIterators.SaveErrorTo | table/two_level_iterator.cc:61-63 | an ok status takes the new one, an error is kept |
| TwoLevelIterators.FirstError | table/two_level_iterator.cc:61-63 | an error iff the history holds one, and then the earliest |
| TwoLevelIterators.SaveErrorKeepsFirst | table/two_level_iterator.cc:61-63 | saving each status in turn yields exactly the first error of the history |
| TwoLevelIterators.ForwardSavedHolds | table/two_level_iterator.cc:359-370 | a block the forward skip leaves for a different handle, or for the end of the index, has its status in the statuses the skip saves |
| TwoLevelIterators.BackwardSavedHolds | table/two_level_iterator.cc:372-383 | a block the backward skip leaves for a different handle has its status in the statuses the skip saves |
| TwoLevelIterators.SkippedErrorForward | table/two_level_iterator.cc:359-370 | whatever was saved before, a corrupt block the forward skip leaves makes the first error of the history an error |
| TwoLevelIterators.SkippedErrorBackward | table/two_level_iterator.cc:372-383 | the same for the backward skip, including the front block dropped when it runs off the start of the index |
| TwoLevelIterators.CorruptGapHistory | table/two_level_iterator.cc:363-368 | blocks ok, empty and corrupt, ok: leaving the first two saves ok and then the corruption, which is the first error |
| TwoLevelIterators.SkippedCorruptionIsReported | table/two_level_iterator.cc:346-350 | `Next` from the first block skips the empty corrupt one, lands on key 3, and the iterator's status is then that corruption |
| TwoLevelIterators.FlatUpToPrefix | table/two_level_iterator.cc:359-370 | the entries of the first `m` blocks are a prefix of those of the first `n` |
| TwoLevelIterators.FlatAt | table/two_level_iterator.cc:359-370 | entry `p` of block `i` is entry `Offset(i) + p` of the concatenation |
| TwoLevelIterators.OffsetMonotone | table/two_level_iterator.cc:359-383 | block start offsets never decrease |
| TwoLevelIterators.Locate | table/two_level_iterator.cc:359-383 | every position of the concatenation lies in some block at some offset |
| TwoLevelIterators.BeforeSeekTargetBelow | table/two_level_iterator.cc:325-330 | on a well-formed index every entry before the seek target is below the key |
| TwoLevelIterators.AtSeekTargetAbove | table/two_level_iterator.cc:325-330 | on a well-formed index the entry at the seek target is at least the key |
| TwoLevelIterators.SeekLandsOnLowerBound | table/two_level_iterator.cc:325-330 | on a well-formed index the seek target is the lower bound of the key in the concatenation |
| TwoLevelIterators.TwoLevelIterator.constructor | table/two_level_iterator.cc:310-320 | the iterator takes the index iterator, opens no data iterator and starts with an ok status and an empty history |
| TwoLevelIterators.TwoLevelIterator.Valid | table/two_level_iterator.cc:38-40 | valid iff a data block is open and positioned on one of its entries |
| TwoLevelIterators.TwoLevelIterator.Key | table/two_level_iterator.cc:41-44 | the key of the data block's current entry |
| TwoLevelIterators.TwoLevelIterator.Value | table/two_level_iterator.cc:45-48 | the value of the data block's current entry |
| TwoLevelIterators.TwoLevelIterator.KeyAtPosition | table/two_level_iterator.cc:38-48 | a valid iterator's key and value are those at its position in the concatenation |
| TwoLevelIterators.TwoLevelIterator.CombinedStatus | table/two_level_iterator.cc:49-58 | ok iff index, open data iterator and saved status are all ok; an index error first, then a data error, then the saved status |
| TwoLevelIterators.TwoLevelIterator.SaveError | table/two_level_iterator.cc:61-63 | the status changes only from ok to the new non-ok status, and the status is always the first error saved |
| TwoLevelIterators.TwoLevelIterator.SetDataIterator | table/two_level_iterator.cc:385-388 | the dropped iterator's status is saved before the replacement is installed |
| TwoLevelIterators.TwoLevelIterator.InitDataBlock | table/two_level_iterator.cc:390-404 | no data iterator iff the index is invalid; kept when the handle equals the recorded one; otherwise a fresh unpositioned iterator opened on the current handle, which is recorded. The history gains the dropped iterator's status (`InitSaved`) in the clearing and the replacing branch, and nothing when the iterator is kept or none was open |
| TwoLevelIterators.TwoLevelIterator.SkipEmptyDataBlocksForward | table/two_level_iterator.cc:359-370 | terminates valid iff its position is inside the concatenation, without moving in it; otherwise the index is exhausted and the data iterator cleared. The index only moves forward, and the history gains exactly `ForwardSaved` of the entries it moved over: the status of each block left for a different handle or for the end |
| TwoLevelIterators.TwoLevelIterator.ForwardStep | table/two_level_iterator.cc:366-368 | one loop round: the next block's start is the same position in the concatenation, and the history gains `ForwardDrop` of the entry left |
| TwoLevelIterators.TwoLevelIterator.SkipEmptyDataBlocksBackward | table/two_level_iterator.cc:372-383 | terminates valid iff an entry lies before its backward limit, and then sits on the one just before it; otherwise the index is exhausted and the data iterator cleared. The index only moves back or off the front, and the history gains exactly `BackwardSavedTo` of the entries it moved over, nothing when no data iterator was open |
| TwoLevelIterators.TwoLevelIterator.BackwardStep | table/two_level_iterator.cc:379-381 | one loop round: the previous block's end keeps the backward limit, and the history gains `BackwardDrop` of the entry left |
| TwoLevelIterators.TwoLevelIterator.Seek | table/two_level_iterator.cc:325-330 | valid iff the seek target is inside the concatenation and then on it; otherwise index exhausted and data iterator cleared. The history gains what `InitDataBlock` drops at the index's landing entry, then what the forward skip drops from there |
| TwoLevelIterators.TwoLevelIterator.SeekToFirst | table/two_level_iterator.cc:332-337 | valid iff some block is non-empty, and then on the first entry of the concatenation; the history grows as for `Seek`, from entry 0 |
| TwoLevelIterators.TwoLevelIterator.SeekToLast | table/two_level_iterator.cc:339-344 | valid iff some block is non-empty, and then on the last entry of the concatenation; the history gains what `InitDataBlock` drops at the last entry, then what the backward skip drops |
| TwoLevelIterators.TwoLevelIterator.SeekToLastBlock | table/two_level_iterator.cc:340-342 | the steps before the backward skip: index on the last entry, a data iterator iff the index is valid, and the backward limit at the end of the concatenation |
| TwoLevelIterators.TwoLevelIterator.Next | table/two_level_iterator.cc:346-350 | on the next entry of the concatenation, or invalid past its end; the history gains `ForwardSaved` of the index entries moved over |
| TwoLevelIterators.TwoLevelIterator.Prev | table/two_level_iterator.cc:352-356 | on the previous entry of the concatenation, or invalid before its start; the history gains `BackwardSavedTo` of the index entries moved over |
| TwoLevelIterators.ScanForward | table/two_level_iterator.cc:332-370 | `SeekToFirst` and then `Next` until invalid yield the keys of all blocks in index order, empty blocks contributing nothing |
| TwoLevelIterators.ScanBackward | table/two_level_iterator.cc:339-383 | `SeekToLast` and then `Prev` until invalid yield the same keys in reverse |
| TwoLevelIterators.SeekFirstAtLeast | table/two_level_iterator.cc:325-330 | on a well-formed index a seek is valid iff the concatenation has a key at least the target, and yields the first such key |
| BufferIteratorHeader.FirstLargestAtLeast | db/buffer_iterator.h:48-62 | the lower bound on `largest`: every node before it is below the key, the node at it (if any) is not |
| BufferIteratorHeader.FirstLargestAtLeastUnique | db/buffer_iterator.h:48-62 | on sorted nodes the two sides of the search determine the lower bound |
| BufferIteratorHeader.FirstLargestAtLeastPrefix | db/buffer_iterator.h:48-62 | the lower bound is decided within any prefix that already reaches it |
| BufferIteratorHeader.HeaderSeekAgreesOnDisjointBuffer | db/buffer_iterator.h:48-62 | on ordered disjoint ranges the intended search (`FindNode`, used by `SeekIntended`) and the backward scan of db/buffer_iterator.cc:69-73 both find the node containing the key; the search as written does not (`FindNodeMissesLaterNode`) |
| BufferIteratorHeader.BufferIterator.constructor | db/buffer_iterator.h:17-18 | a new header index starts invalid |
| BufferIteratorHeader.BufferIterator.Valid | db/buffer_iterator.h:20 | within the positions an index can take, invalid exactly at `|nodes|` |
| BufferIteratorHeader.BufferIterator.Key | db/buffer_iterator.h:22-25 | the index key is the node's largest key, an upper bound of every key the node contains |
| BufferIteratorHeader.BufferIterator.Next | db/buffer_iterator.h:27-30 | the index moves one node forward |
| BufferIteratorHeader.BufferIterator.Prev | db/buffer_iterator.h:32-35 | the index moves one back, from 0 to the invalid position |
| BufferIteratorHeader.BufferIterator.Seek | db/buffer_iterator.h:37-39 | as written: position 0 when the buffer's largest key reaches the target and `|nodes|` otherwise, valid iff the buffer is not empty and the target is at most that key |
| BufferIteratorHeader.BufferIterator.SeekIntended | db/buffer_iterator.h:37-39 | through the intended search: on nodes sorted by `largest`, the first node whose largest key is at least the target, valid iff one exists |
| BufferIteratorHeader.BufferIterator.SeekToFirst | db/buffer_iterator.h:41 | position 0, valid iff the buffer is not empty |
| BufferIteratorHeader.BufferIterator.SeekToLast | db/buffer_iterator.h:43 | the last node, and invalid on an empty buffer |
| BufferIteratorHeader.BufferIterator.FindNodeAsWritten | db/buffer_iterator.h:48-62 | the search as written returns `|nodes|` when `buffer_->largest` is below the key and 0 otherwise, whatever the nodes |
| BufferIteratorHeader.BufferIterator.FindNode | db/buffer_iterator.h:48-62 | the search as intended stays in `[0, |nodes|]`, and on sorted nodes returns the lower bound on `largest` |
| BufferIteratorHeader.FindNodeMissesLaterNode | db/buffer_iterator.h:55 | nodes `[1, 3]` and `[5, 9]`, buffer largest 9, key 6: as written the result is 0, as intended it is 1 |

## Left out

- The key orders: the source compares with `InternalKeyComparator` in the index scan (db/buffer_iterator.cc:93-94) and bytewise elsewhere (db/buffer_iterator.cc:111-112, 132-138); one total order on `int` stands for both.
- The block function, its `arg_` and `ReadOptions`, and the real table and block iterators are foreign; they become an opener function from handle bytes to a `Block` and the `DataIter` class.
- `EncodeFixed64` is not shown in the source. It is modelled as LevelDB's little-endian fixed64.
- The sizes of `value_buf_` and `Slice` are not modelled beyond the 16-byte length of a handle.
- `delete`/`new`, destructors and `IteratorWrapper` caching are memory management only. `DataIter` plays the wrapper's part.
- `NewTwoLevelIterator` (table/two_level_iterator.cc:408-414) is a one-line factory. db/buffer_iterator_test.cc makes no assertions.
- The earlier draft copies of the buffer iterators at table/two_level_iterator.cc:80-307 do not compile. The db/buffer_iterator.cc versions are modelled instead.
- BufferTwoLevelIterators.BufferTwoLevelIterator.constructor: the source of this constructor is not shown. The model builds its own index iterator over the given nodes and file list, with no data iterator open.
- Unsigned widths: `index_`, `left` and `right` are unbounded naturals. The `left + right` of the header search cannot overflow for any real buffer. Only the `uint32_t` truncation of the node number, which changes the file lookup, is written out.
- BufferNodeIterators.BufferNodeIterator.Seek: db/buffer_iterator.cc:138 reads `key()` of a possibly invalid iterator. A seek that runs off the end is modelled as a miss.
- BufferTwoLevelIterators.BufferTwoLevelIterator.SeekResult: the source may dereference a null `data_iter_` (db/buffer_iterator.cc:178). Under the model's invariant a positioned index always has an open data iterator, so that case does not arise.
- `seek_result_` is uninitialised before the first `Seek`. The model starts it as a miss.
- BufferNodeIterators.BufferNodeIterator.Value asks only that the wrapped iterator is positioned, because the source does not check the clamp.
- BufferTwoLevelIterators.BufferTwoLevelIterator.SeekIntended, BufferNodeIterators.BufferNodeIterator.SeekIntended, BufferIteratorHeader.BufferIterator.SeekIntended, BufferTwoLevelIterators.BufferTwoLevelIterator.InitDataBlockPerNode, BufferTwoLevelIterators.PerNodeRollOverShowsLaterKey and BufferIteratorHeader.HeaderSeekAgreesOnDisjointBuffer use the corrected halves of the findings rows. They state what the code would do corrected, not what it does. For the cache, only the roll-over step is modelled with the corrected `InitDataBlockPerNode`; every other operation keeps the cache as written.
- BufferTwoLevelIterators.BufferTwoLevelIterator.Seek: repeating a lookup is proved to give the same node and result only when the data iterator it starts from is bound to a node with `smallest <= largest` (`RepeatedSeekAgrees`). A lookup repeated from an inverted node can differ.
- BufferIteratorHeader.BufferIterator.FindNode: on a buffer not sorted by `largest`, only the bound `r <= |nodes|` is stated.
- BufferIteratorHeader.BufferIterator.SeekIntended: on a buffer not sorted by `largest`, only the invariant `index <= |nodes|` is stated.

## Findings

| source | as written | input that shows it | evidently intended | confidence | as-written member | corrected member |
|---|---|---|---|---|---|---|
| db/buffer_iterator.cc:132-133 | the early return of the exact seek tests `target < smallest && target > largest`, true only on an inverted range, so the seek ignores the node's range | node `[2, 4]`, data holding key 9, seek 9: reports a hit while `Valid()` is false | `target < smallest \|\| target > largest`: a miss whenever the target is outside the node | high (not executed) | BufferNodeIterators.AsWrittenReportsHitOutsideRange | BufferNodeIterators.ExactSeek |
| db/buffer_iterator.cc:161-168 | `InitDataBlock` keeps the open data iterator whenever the handle bytes are equal, and with it the node the iterator was bound to; every later clamp, `SeekToFirst` and `SeekToLast` then uses that older node's range | nodes `[1, 3]` and `[5, 9]` of file 1 holding 2 and 7: `SeekToFirst` shows 2, and `Next` shows 2 again on node 1; 7 is never shown | reuse the open file but wrap it for the current node, as the cache only means to avoid reopening the file | high (not executed) | BufferTwoLevelIterators.ScanRepeatsKeyOfSharedFile | BufferTwoLevelIterators.BufferTwoLevelIterator.InitDataBlockPerNode |
| db/buffer_iterator.h:55 | the binary search compares `buffer_->largest` with the key instead of the probed node, so it returns 0 or `nodes.size()` | nodes `[1, 3]` and `[5, 9]`, buffer largest 9, key 6: returns 0, a node that does not reach 6 | compare `nodes[mid].largest` (the unused `node` local at line 54): the lower bound on `largest` | high (not executed) | BufferIteratorHeader.BufferIterator.FindNodeAsWritten | BufferIteratorHeader.BufferIterator.FindNode |
