# The pupa store engine, modelled and proved

This project models the storage engine of pupa (`src/pupa_store.c`): a persistent
key-value store in one mapped file that keeps, for each key, its last few values.

The file is a header and three sections, each in two equal halves:

- **item**: a sorted index. An item holds the extent of its key and a window of
  `maxVer` value slots, the live ones at the right end and the newest in the last slot;
- **key** and **value**: append-only heaps. When one is full, its live bytes are
  copied into the other half and every offset is rewritten (compaction).

A write copies the active items into the other item half (the snapshot), edits the
copy, appends to the heaps or compacts them, and publishes by switching the active item
half. Readers take no lock and get extents that point into the heap.

Its meaning is simple: a map from key to at most `maxVer` values, newest first. The main
theorems say that over every run the file means just that map (`Runs.Run`, `Runs.RunOn`);
that at every single write to the file a reader finds the map after a whole number of
operations, in order; that bytes handed out stand until a value compaction copies into
their half, and when that happens; that an item half sampled by a reader stands until a
write begins after another was published; and that a set fails exactly when the items, the
live key bytes or the live value bytes leave no room.

## Files

| file | content |
|---|---|
| `KeyOrder.dfy` | stored strings, the comparator, the reference order |
| `Layout.dfy` | header, sections, the address map of the file |
| `Spec.dfy` | the plain map, its operations, runs, history |
| `Laws.dfy` | every reply in terms of other replies and of bytes written out |
| `Fill.dfy` | the fill of both heaps over runs, and when they are compacted |
| `Image.dfy` | the file as a value, its meaning, the invariant, what a write must keep |
| `Search.dfy` | comparison inside the file, binary insertion, moving items |
| `Packing.dfy` | what the two compactions, appends and version shifts do |
| `Refinement.dfy` | edits of the index are edits of the map |
| `EntryList.dfy` | the operations of the map on the ordered list an index holds |
| `Store.dfy` | the engine: a class over two item arrays and one byte array |
| `Runs.dfy` | whole runs: replies, readers, lifetime of results, reopening |
| `LiteralForm.dfy` | where the source, read to the letter, fails, and exactly when it does not |
| `Placement.dfy` | index items with the heap halves their extents lie in, and what a write as written makes of them |
| `CachedPointer.dfy` | runs of the source with its cached item pointer, against the intended runs |
| `Refresh.dfy` | that source on its own, in agreement or not: what moves the pointer, what the next write is made from |
| `Windows.dfy` | what readers find between the two header writes of a publication |

A step is a single write to the file: one item, one byte or one header section (`OneWrite`).
`Trace` says that a list of images leads from one image to another in such steps, without a
gap. The contracts of `Set`, `Del`, `Do` and `RunOn` promise a trace from the image before to
the image after, and what they say of readers they say of each image in it.

## The intended form, and the source to the letter

In the places below the source cannot do what it and its documentation promise. `Store`
models the promise. `LiteralForm`, `CachedPointer` and `Windows` (and two members
elsewhere) state each place as written and prove exactly when it is right.

- Item halves are reserved for the slots of one item only (`src/pupa_store.c:35-39`);
  `README.md:35` and every `item_len` need them for each item. `InitHeader` uses the
  documented size. `LiteralHalfHolds`: the code's size is enough exactly for one item, or
  without slots.
- The compactions step through the items by 16 bytes (`src/pupa_store.c:456-459`, `496`).
  `Store` steps by item. `LiteralKeyStride`, `LiteralKeyStrideFails`, `LiteralValueStride`.
- Value compaction walks slots `0 .. val_cnt - 1`, the live ones are the last `val_cnt`.
  `LiteralWindow`: sound exactly for a full window.
- Delete measures its distance in 16-byte cells and uses an overlapping memcpy
  (`src/pupa_store.c:256-259`). `LiteralDeleteExact`: right exactly for the last item. The
  memcpy calls at 382 and 386 are modelled as memmove.
- `make_snapshot` copies from a pointer that only lookups and added keys refresh, and a
  lookup beyond the maximal version does not (`src/pupa_store.c:70-74`, `213`, `527`).
  `Store` copies from the active half. `CachedPointer` runs the source as written, with the
  heap half that each extent lies in. `LiteralRunExact`: over every run, replies and entries
  are as intended and all extents lie in the active heap halves exactly when each write is
  safe, which `SafeWrite` decides from the operations. A write after a replaced or deleted
  key without a refresh has the effect meant only if that edit changed nothing, or the write
  is refused either way, or it concerns the replaced key alone (`Harmless`); and where it is
  accepted, all that remains of the stale list must come to lie in the halves active then
  (`Arrives`). Otherwise the index leads into the half the next compaction fills.
  `AfterSet`, `AfterDelete` and `AfterRefusedSet` give the condition after each single edit;
  `Refresh` says what moves the pointer and which items a write is made from in any case.
  `LostUpdate`, `SetThenDelete` and `RefusedThenDelete` are the failures,
  `StrandedValuesAreLost` is what the last two lead to.
- Key compaction returns the start of the target half, its caller records the place behind
  the packed keys (`src/pupa_store.c:306`, `507`). `LiteralKeyAddress`:
  they are the same place exactly if nothing was packed. `LiteralKeyOverwrites`: the packed
  keys survive exactly if the new key repeats their bytes.
- A key compaction followed by a value that does not fit leaves the key half switched
  (`src/pupa_store.c:295`, `323-326`). `Store` switches it back. `LiteralOverflow` gives the
  exact condition, `StrandedKeysAreLost` what follows from it.
- The insertion search has unsigned bounds and computes `mid - 1` (`src/pupa_store.c:663`).
  `Store` uses signed ones. `LiteralPositionExact`, `WrapBands`: it wraps exactly when the
  new key sorts before all others and their number is 1, 4-5, 10-13, 22-29, ...
- `used` and `id` are written one after the other (`src/pupa_store.c:208`, `216`, `262`,
  `264`). `Publish` writes them in one step and readers sample them together. `DeleteWindow`:
  between the two writes of delete every lookup is right. `DeleteStraddled`: a reader that
  loads `id` before and `used` after them is right exactly if the last item was deleted. `AddWindow`: between those of add,
  lookups (and those that straddle both writes) are right exactly under a condition on the
  item left over behind the index and on the number of items, because the binary search may come to it before the last key;
  `AddWindowHidesKey` and `AddWindowRevives` are the failures.
- `pupa_get` passes version 0 (`src/pupa.c:75`) although the latest version is 1
  (`README.md:26`). There is no test for versions below 1, and they read a cell behind the
  item's slots. `Get` says which; `GetLatest`: for a key with a successor, the bytes returned
  are that next key. In runs such a reply counts as `Stray`.
- Items are ordered by length first and bytes second, not alphabetically as `README.md:22`
  says; the model follows the code. Stored lengths count the trailing NUL.

The test for a zero key length in the lookups (`src/pupa_store.c:95`) cannot succeed, since
every extent in use is non-empty (`InHeap`); the model has no such branch.

## Model

| member | source | states |
|---|---|---|
| Runs.Run | src/pupa.c:9-70 | Every run from a new store, closed and opened again at any point, gives the replies of one plain map that starts empty. |
| Runs.RunOn | src/pupa_store.c:62-400 | Every run from every valid store: replies and final map are those of the plain map; the images after each single write form a gapless trace, each shows readers the map after a whole number of operations, never going back; the value heap's fill, active half and compactions, and the key heap's fill and active half, are those computed from the plain map, and bytes that could be handed out stand except in halves compacted into; an item half sampled at the start stands until a write begins after a publication. |
| Runs.Do | src/pupa_store.c:62-272 | One operation of any kind: reply and new map of the plain map; a gapless trace of its writes in which readers see the old map until the last step; fill, active half and compaction of the value heap, and fill and active half of the key heap, exactly as computed; who sampled before it finds the same entries throughout. |
| Runs.CollectValues | src/tools/pupa_tool.c:117-142 | A zeroed array read up to the first empty entry yields exactly the values of the key. |
| Runs.Ask | src/pupa_store.c:62-114 | A lookup and the bytes it points to answer as the plain map does. |
| Runs.OldThenNew | src/pupa_store.c:173-217 | At each image of a write's gapless trace a lookup finds the old map, at the last one of a successful write the new map; a reader that sampled the header before finds its entries in place throughout, publication included. |
| Runs.ResultStands | src/pupa_store.c:110-111 | The bytes of a lookup result stay unchanged over a run in which no compaction begins while their half is the snapshot half. |
| Runs.RoomKeepsResults | src/pupa_store.c:316-342 | A result survives every run whose sets bring no more value bytes, NULs included, than are free behind the used ones. |
| Runs.LastBytes | src/pupa_store.c:308-334 | In every image whose map is terminated the last byte of each key and each live value in the file is 0. |
| Runs.StepsTerminated | src/pupa_store.c:308-376 | So it is in each image of the trace of a run from a valid store. |
| Runs.OneCompactionSurvived | src/pupa_store.c:449-466 | A result survives every run with at most one value compaction, completed or not. |
| Runs.LookUpAcross | src/pupa_store.c:74-93 | A lookup whose probes read one image after another finds what a lookup in the sampled image finds. |
| Runs.LookUpSampled | src/pupa_store.c:74-111 | If the sampled entries stand in every image its probes read, a lookup answers as the sampled map does, and the entry found is the same in whichever of the images it is read. |
| Runs.LookUpDuring | src/pupa_store.c:74-111 | So a lookup that runs while a write does, its probes in any images of the write's trace, answers as the map before the write. |
| Runs.LookUpInRun | src/pupa_store.c:74-111 | And one that runs while any number of operations do, up to and with the first publication. |
| Runs.SampledEntry | src/pupa_store.c:107-111 | The entry behind the index found is the sampled one, whichever later image it is read from. |
| Runs.SampleNext | src/pupa_store.c:515-532 | A sampled item half stands through any number of failed writes and one that is published. |
| Spec.VersionHistory | src/pupa_store.c:378-397 | After any run a key holds exactly its most recently accepted values since insertion, at most the maximum, newest first. |
| Spec.VersionIsRecency | src/pupa_store.c:101-111 | Version v is found exactly when v values were accepted since insertion and v is within the maximum, and is then the v-th most recent. |
| Spec.LookUpAnswers | src/pupa_store.c:62-114 | The reply to every lookup of every run, whatever the version, in terms of the values accepted before it. |
| Runs.ReadersAgree | src/pupa_store.c:107-160 | Called on the same image, at any step of a write too, the lookup of version v succeeds exactly when entry v - 1 of all values is filled, and both lead to the same bytes. |
| Spec.ValuesAnswer | src/pupa_store.c:116-163 | The reply for all values, at any point of any run: NotFound if none was accepted since insertion, else all of them, newest first and cut at the maximum. |
| Spec.TerminatedRun | src/pupa_store.c:308-376 | Over every run each value of each reply, and each key and value kept, ends in byte 0. |
| Laws.NothingAtFirst | src/pupa_store.c:22-60 | A new store finds no key. |
| Laws.SetThenGet | src/pupa_store.c:165-225 | After any run an accepted set makes version 1 the value followed by a NUL and each version one older; it changes no other key's reply, and a refused one no reply at all. |
| Laws.DelThenGet | src/pupa_store.c:227-272 | A delete succeeds exactly if the key has a version; then the key is not found, and no other key's reply has changed. |
| Laws.LookUpThen | src/pupa_store.c:62-163 | A lookup changes no later reply. |
| Laws.ValuesAreVersions | src/pupa_store.c:155-160 | After any run entry v - 1 of all values is the reply for version v, for just the versions that are found. |
| Laws.SetAccepted | src/pupa_store.c:284-326 | After any run a set is accepted exactly if its key is stored or has an item and room beside the listed keys, and its value has room beside all values the store replies for them. |
| Laws.KeysListed | src/pupa_store.c:284-326 | The keys found after a run can be listed, each once. |
| Laws.FirstSet | src/pupa_store.c:284-326 | In numbers: the first set needs one item and room for both strings with their NULs. |
| Laws.PublishesIsOk | src/pupa_store.c:202-217 | A write is published exactly if its reply is Ok. |
| Fill.LiveIsUsed | src/pupa_store.c:311-342 | After every run the live bytes of each heap are at most its used bytes. |
| Fill.FillGrows | src/pupa_store.c:327-342 | While no compaction begins, the fill is that of the start and the accepted values since, NULs included, whether they replace or add. |
| Fill.CompactionBegins | src/pupa_store.c:316-323 | The first compaction of a run begins exactly at a set that its key does not stop and whose value does not fit behind the values accepted so far. |
| Fill.NoCompaction | src/pupa_store.c:316-342 | If all values that a run brings have room behind the used bytes it compacts none: decided from the operations alone. |
| Fill.FillSince | src/pupa_store.c:469-476 | From a completed compaction to the next the fill is what was live then, the value that caused it and the values accepted since. |
| Fill.KeyFillGrows | src/pupa_store.c:299-311 | While no key compaction begins, the keys brought are appended one behind the other, that of a refused value too. |
| Fill.KeyCompactionBegins | src/pupa_store.c:288-298 | The first key compaction of a run begins exactly at a new key with an item that does not fit behind the keys brought so far. |
| Fill.NoKeyCompaction | src/pupa_store.c:288-311 | If all keys that a run names have room behind the used bytes it compacts none. |
| Fill.KeyFillSince | src/pupa_store.c:503-510 | From a completed key compaction to the next the fill is what was live then, the key that caused it and the keys brought since. |
| Spec.CapacitiesHold | src/pupa_store.c:284-290 | No run of the map exceeds the item, key byte or value byte capacity. |
| Spec.PurgesExact | src/pupa_store.c:439-478 | Over every run a value half is copied into exactly when a compaction begins while it is the snapshot half. |
| Spec.FirstPurge | src/pupa_store.c:449-452 | The first compaction of a run does not copy into the half active at its start. |
| Store.Store.Set | src/pupa_store.c:165-225 | Replies and changes the map as the plain map does: Ok and the value in front of the history when it fits, Overflow and no change otherwise; valid afterwards either way; readers undisturbed at every image of a gapless trace; a value compaction begins exactly when the key fits and the free tail is too short, and fill and active half of both heaps are exact. |
| Store.Store.Del | src/pupa_store.c:227-272 | Removes the whole history of a key or reports NotFound; touches no heap byte. |
| Store.Store.Get | src/pupa_store.c:62-114 | From any readable image, at any step of a write too: for versions from 1 the code and extent the map calls for, the extent in the used part of the active value half; for versions below 1 the extent in the cell the source reads. |
| Store.Store.GetValues | src/pupa_store.c:116-163 | All versions newest first; entries beyond the number of versions are not written. |
| Store.Store.GetLatest | src/pupa.c:71-81 | With version 0, as the public call passes it, a present key is answered with the cell behind its newest slot; if the key has a successor in the index, with that next key. |
| Store.Store.ItemAdd | src/pupa_store.c:274-345 | Appends an item with the key and one value behind an index whose entries are unchanged; Overflow exactly when the table is full, or live key bytes or live value bytes leave no room; on failure the heap halves are selected as before. |
| Store.Store.ItemReplace | src/pupa_store.c:347-400 | Puts the value in front of the item's history and changes no other entry; Overflow exactly when live values, the one to be evicted included, leave no room. |
| Store.Store.PushVersion | src/pupa_store.c:378-395 | In all three branches the new extent becomes version 1, each older version moves one up, and the one beyond the maximum drops out. |
| Store.Store.StoreKey | src/pupa_store.c:288-311 | Succeeds exactly when live keys and the new key fit; appends if the free tail is long enough, else compacts, and the key section is exact in each case; all entries keep their meaning. |
| Store.Store.StoreValue | src/pupa_store.c:316-342 | The same for values; a compaction begins exactly when the free tail is too short. |
| Store.Store.KeyCompaction | src/pupa_store.c:481-513 | The keys are packed in index order in the other half, all else stands; succeeds exactly when the new key fits behind them. |
| Store.Store.ValueCompaction | src/pupa_store.c:439-479 | The live values are packed in the other half, the used count is the sum of their lengths, all else stands; succeeds exactly when the new value fits. |
| Store.Store.MakeSnapshot | src/pupa_store.c:515-532 | The snapshot half becomes the active items followed by what it held behind them; nothing else changes. |
| Store.Store.Bsearch | src/pupa_store.c:87-93 | Goes the way of the library's binary search on any list; on an ordered one it agrees with linear search, for present and absent keys. |
| Store.Store.Sort | src/pupa_store.c:670-693 | The last item is inserted among the others at one place and the result is ordered. |
| Store.Store.Publish | src/pupa_store.c:206-217 | One step after which readers see exactly the edited entries, in a valid image. |
| Store.VersionCellAddress | src/pupa_store.c:107-108 | The cell read for any version up to the maximum, negative ones included, has the address the slots of the item lead to. |
| Store.CellOfAddress | src/pupa_store.c:84-108 | At the address of each cell of each item, in either half, just that field is found. |
| Store.NoCellBehind | src/pupa_store.c:35-39 | Behind the second item half there is no cell. |
| Store.Store.Create | src/pupa_store.c:22-60 | A new store is valid, empty, and has the documented capacities and size. |
| Store.Store.Attach | src/pupa.c:30-42 | Opening an existing file yields the same image, invariant and map. |
| Image.QuietView | src/pupa_store.c:173-202 | An unpublished step of a write is readable and shows the old map. |
| Image.KeptThrough | src/pupa_store.c:515-532 | An item half sampled before a write keeps its entries until the write has ended. |
| Image.AbandonedValid | src/pupa_store.c:202-204 | A write that gives up leaves a valid image with the old map. |
| Image.SumsAreMapSums | src/pupa_store.c:454-467 | The byte sums and count over the items are those of the map they mean. |
| Refinement.SpaceConserved | src/pupa_store.c:311-342 | Live bytes are at most the used bytes and those at most the size, in both heaps, and the items in use are the keys. |
| Refinement.FitsIs | src/pupa_store.c:284-290 | The capacity tests on the index are those on the map. |
| Refinement.InsertIsPut | src/pupa_store.c:189-214 | Inserting an item is adding a key to the map. |
| Refinement.UpdateIsPut | src/pupa_store.c:196-200 | Pushing a version is updating the key in the map, and keeps the order. |
| Refinement.RemoveIsDel | src/pupa_store.c:256-264 | Taking an item out is deleting the key, and keeps the order. |
| Packing.NextKey | src/pupa_store.c:495-501 | While keys are moved the next one still reads as before and its copy fits in the target half. |
| Packing.NextValues | src/pupa_store.c:455-466 | While values are moved the next item's still read as before and their copies fit in the target half. |
| Packing.KeysPackedMeaning | src/pupa_store.c:494-510 | Key compaction changes the meaning of no item and leaves all keys in the packed prefix. |
| Packing.ValuesPackedMeaning | src/pupa_store.c:454-476 | Value compaction changes the meaning of no item and leaves all live values in the packed prefix. |
| Packing.PushedSound | src/pupa_store.c:378-397 | A pushed version truncates the history at the maximum and adds at most the new value's bytes. |
| Search.ItemCompareIsOrder | src/pupa_store.c:402-437 | Both forms of the comparator, caller's key and stored key, are the one order on key bytes. |
| Search.FindDecides | src/pupa_store.c:87-93 | The library's binary search of an ordered list finds a key if and only if the list holds it. |
| Search.InsertPositionSplits | src/pupa_store.c:641-665 | The insertion search, whose range includes the item itself, ends at the place that splits the smaller from the larger keys. |
| Search.SplitUnique | src/pupa_store.c:641-665 | There is only one such place. |
| Search.InsertionPlace | src/pupa_store.c:670-693 | Inserting the last item at the place found keeps the index ordered. |
| KeyOrder.CompareIsOrder | src/pupa_store.c:402-426 | For lengths an int can hold, the comparator is length-then-bytes order and zero only for identical keys. |
| KeyOrder.FirstByteDecides | src/pupa_store.c:414-425 | Of two strings of one length the first byte in which they differ decides, as an unsigned number, in memcmp, the comparator and the reference order. |
| KeyOrder.ShorterFirst | src/pupa_store.c:408-412 | Whatever its bytes, the shorter string comes first. |
| KeyOrder.LengthSign | src/pupa_store.c:408-412 | The wrapped length difference has the right sign exactly when the true difference is an int. |
| KeyOrder.LessTransitive | src/pupa_store.c:402-426 | The order is transitive. |
| KeyOrder.LessTrichotomy | src/pupa_store.c:402-426 | Of two keys exactly one is smaller, or they are identical. |
| Layout.InitTiles | src/pupa_store.c:22-60 | The six halves follow one another from the header to the end, and the size is the documented formula. |
| Layout.InitOneHome | src/pupa_store.h:25-46 | Each address behind the header lies in exactly one half. |
| Layout.CellsFit | src/pupa_store.c:84-108 | Every item header and slot lies in its own item half and distinct ones do not overlap. |
| LiteralForm.LiteralHalfHolds | src/pupa_store.c:35-39 | The reserved item half holds all cells exactly for at most one item, or without slots. |
| LiteralForm.LiteralKeyStride | src/pupa_store.c:495-496 | The stride of key compaction is right exactly for at most one item, or without slots. |
| LiteralForm.LiteralKeyStrideFails | src/pupa_store.c:496-500 | With two items the second key copied is a value slot of the first. |
| LiteralForm.LiteralValueStride | src/pupa_store.c:456-459 | The stride of value compaction is right exactly with no item, or one value in a window of sixteen. |
| LiteralForm.LiteralWindow | src/pupa_store.c:458-466 | Walking the first slots instead of the last keeps an item sound exactly when its window is full. |
| LiteralForm.VersionZeroIsNextKey | src/pupa_store.c:107-111 | Version 0 reads the key extent of the next item. |
| LiteralForm.LiteralDeleteExact | src/pupa_store.c:256-264 | Delete as written removes the item it found exactly when that is the last. |
| LiteralForm.LiteralDeleteFails | src/pupa_store.c:256-264 | Deleting the second of three items drops the third. |
| LiteralForm.LiteralPositionExact | src/pupa_store.c:641-665 | The unsigned search wraps exactly when the new key is below all others and left-only halving of their number comes to 1; otherwise it equals the signed search. |
| LiteralForm.WrapBands | src/pupa_store.c:655-663 | Those numbers are exactly the bands from 3 * 2^k - 2 to 4 * 2^k - 3. |
| LiteralForm.CountedLenIsSum | src/pupa_store.c:494-501 | The bytes key compaction counts are the live key bytes. |
| LiteralForm.LiteralKeyAddress | src/pupa_store.c:288-310 | The compaction as written, called by its caller as written, refuses a key exactly when the live keys leave no room; else the key is written where its item says exactly when the free tail was long enough or nothing was packed. |
| LiteralForm.BlockBytes | src/pupa_store.c:494-501 | All packed keys read back exactly when their concatenation stands byte for byte. |
| LiteralForm.LiteralKeyOverwrites | src/pupa_store.c:507-507 | Written at the start of the target half, the key leaves all packed keys in place exactly when it repeats the packed bytes it falls on. |
| LiteralForm.LiteralOverflow | src/pupa_store.c:293-326 | After a value overflow as written the map still reads as before, and the invariant holds exactly when the key was not compacted or there is no item. |
| LiteralForm.LiteralOverflowIsAccepted | src/pupa_store.c:293-326 | The key section that is left then is the one an accepted set would leave. |
| LiteralForm.StrandedKeysAreLost | src/pupa_store.c:494-501 | After such an overflow the next key compaction first copies over the half the live keys are in: the key at its start survives exactly if the copied key is its beginning. |
| LiteralForm.StaleIndexReads | src/pupa_store.c:515-531 | An index published from a stale item half after the value half was switched still reads as it should. |
| LiteralForm.StrandedValuesAreLost | src/pupa_store.c:449-466 | But none of its items is in the active value half, and the next value compaction first copies over the half they lie in: the value at its start survives exactly if it and the copied one agree as far as both go. |
| EntryList.ListStepIsStep | src/pupa_store.c:165-272 | An operation on the ordered entry list is that operation on the map. |
| Placement.GivesUpIsRefused | src/pupa_store.c:284-342 | The branches that give up, taken on used bytes and with a compaction in between, refuse exactly what the capacities refuse. |
| Placement.ValueHeapIsSpec | src/pupa_store.c:316-342 | From a current pointer fill, active half and compactions of the value heap are those of the plain map. |
| Placement.KeyHeapIsSpec | src/pupa_store.c:288-311 | And those of the key heap. |
| Placement.WrittenStands | src/pupa_store.c:439-513 | What an accepted write publishes from any list: its entries are those of the list after the write, and all their extents lie in the active halves exactly if what remains of the list arrives there. |
| Placement.RefusedStands | src/pupa_store.c:454-471 | A refused write leaves the items it copied with the same entries, moved to the other half by each compaction it began. |
| CachedPointer.IntendedIsSpec | src/pupa_store.c:165-272 | The intended runs of the index are the runs of the plain map. |
| CachedPointer.HarmlessExact | src/pupa_store.c:527-531 | A write on the list a stale pointer leads to has the effect meant exactly when it is harmless: the edit before it changed nothing, or the write is refused either way, or it deletes the replaced key, or sets it where all but the last of the values retained were the one of the edit. |
| CachedPointer.SafeWriteExact | src/pupa_store.c:449-531 | From where the machines agree, a write from a stale pointer keeps them in agreement exactly when it is harmless and, if accepted, all it publishes lies in the active heap halves. |
| CachedPointer.StepExact | src/pupa_store.c:206-217 | From where the source as written and the intended machine agree, one operation keeps them in agreement exactly when it is safe. |
| CachedPointer.LiteralRunExact | src/pupa_store.c:70-217 | Over every run the source as written gives the replies and entries meant, with all extents in the active heap halves, exactly when each write is safe, lookups beyond the maximum counting as no refresh. |
| CachedPointer.AfterSet | src/pupa_store.c:347-400 | After a replaced key the next write agrees exactly if it is harmless and, when accepted, nothing remains of the values that a compaction by the set has left in the other half. |
| CachedPointer.AfterDelete | src/pupa_store.c:227-272 | After a deleted key it agrees exactly if it is harmless. |
| CachedPointer.AfterRefusedSet | src/pupa_store.c:454-501 | After a refused set from a stale pointer the next write agrees exactly if it is harmless and, when accepted, compacts again whatever of the remaining list the refused one has moved. |
| Refresh.LiteralCoherent | src/pupa_store.c:165-272 | Over every run, in agreement or not, the active items and those the pointer leads to are ordered and the used bytes cover both. |
| Refresh.PointerStays | src/pupa_store.c:74-213 | The pointer refers to the half that was active after the last lookup that got past the test of its version, or the last set that added an item, or at the start. |
| Refresh.RefreshedWrite | src/pupa_store.c:515-531 | A write right after one of those is made from the active items, wherever the run has come to. |
| Refresh.LookUpRefreshes | src/pupa_store.c:70-125 | A lookup that gets past the test of its version answers from the active items, leaves them, and makes the next write be made from them. |
| Refresh.EditedWrite | src/pupa_store.c:196-264 | After an accepted write that adds no item the next write is made from the items of before, as many as the count says now. |
| Refresh.RefreshedRun | src/pupa_store.c:70-217 | A write directly after such a lookup agrees with the intended machine whenever the run before the lookup did. |
| CachedPointer.SameHistory | src/pupa_store.c:378-397 | A replaced key looks as before exactly when its window was full of the value it got again. |
| CachedPointer.SameNext | src/pupa_store.c:378-397 | A further value hides the one before it exactly when all other values retained equal that one. |
| CachedPointer.LostUpdate | src/pupa_store.c:196-217 | Of two sets of a stored key with only a lookup beyond the maximum in between the first is lost. |
| CachedPointer.SetThenDelete | src/pupa_store.c:227-264 | A set of a stored key whose values are compacted, and then its deletion: replies and entries are as meant, but every value published lies in the value half that is no longer active. |
| CachedPointer.RefusedThenDelete | src/pupa_store.c:454-471 | After a refused set from a stale pointer that began to compact the values, deleting the replaced key gives the same failure. |
| CachedPointer.AddWindowRevives | src/pupa_store.c:208-217 | With the count raised before the flip a deleted last key is back. |
| Windows.FindPresent | src/pupa_store.c:87-93 | Behind an ordered list with one extra item the search finds each key, except that for some lengths it comes to the extra item before the last key. |
| Windows.FindAbsent | src/pupa_store.c:87-93 | A key not in the list is found only as the extra item, and exactly when the search leads there. |
| Windows.DeleteWindow | src/pupa_store.c:262-264 | Between the two header writes of delete every binary search finds just the map of after, or of before if the last item was deleted. |
| Windows.DeleteStraddledSees | src/pupa_store.c:74-88 | A reader that loads the half before and the count after the two writes of delete searches the old half without its last item. |
| Windows.DeleteStraddled | src/pupa_store.c:262-264 | It misses the last key, and so finds just the map of before or of after exactly when that was deleted. |
| Windows.AddWindowSees | src/pupa_store.c:208-217 | In the window of add readers search the published entries and the one left over behind them. |
| Windows.AddWindow | src/pupa_store.c:208-217 | In it every binary search finds just the map of before, or just that of after, exactly under a condition on where the left-over key sorts and on the number of items. |
| Windows.AddWindowHidesKey | src/pupa_store.c:208-217 | With one stored key and a blank item behind it, the stored key is not found. |

## Left out

- `src/pupa_shm.c`: opening, sizing, mapping, syncing and unmapping are operating-system calls; sync is taken to succeed and the mapping is the byte array.
- `pupa_store_stats` and `pupa_store_dump`: formatting and debug output only.
- Allocation failure in `pupa_sort`: allocation is taken to succeed.
- Memory ordering of the hardware and the compiler: steps interleave, and an item record, a byte or a header section is written in one step.
- Concurrent writers: the documentation excludes them.
- Item records as bytes: the two item halves are arrays of records; their addresses are treated in `Layout` and, for the strides, as cells in `LiteralForm`.
- Caller buffers inside the mapping, negative lengths, and keys without a trailing NUL; a key length must leave room for the NUL in an int.
- A negative key count, and a maximum of zero versions, for which the source would write a slot over the item's own key; the public interface passes 3.
- Crash recovery in the middle of a write: the source has none for the heap ids.
- Store.Store.Get: where a version below 1 leads behind the item section it returns `Stray`, because the source then takes heap bytes for an extent.
- Runs.Ask: a version below 1 of a present key counts as `Stray`, because the cell read is no matter of the map.
- Spec.LookUpAnswers: the same for lookups of every run.
- CachedPointer.LiteralRunExact: knows the half an extent lies in, not its offset. A value that a compaction copies within one half, other than onto itself, counts as lost, though it may by chance survive; the other departures of the source are taken as meant, and after the first operation on which the machines differ nothing is said of the literal one.
- Windows.DeleteWindow: takes the shift of the items as meant.
- LiteralForm.LiteralDelete: the overlapping copy is `Undefined` rather than some result, because it depends on the order in which the bytes are moved; a copy of bytes onto themselves (`CachedPointer`) does not, and is taken to leave them.
- The language bindings, the benchmark, the command-line tool (except how it collects all versions) and the remaining wrappers in `src/pupa.c`.
