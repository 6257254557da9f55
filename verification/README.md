# Verified models of Contiki and MiCMAC

This project models, in Dafny, the self-contained logic of a Contiki port for 802.11 and of the channel-hopping
MAC layer MiCMAC, and proves what that logic is for.

| part | files |
|---|---|
| Coffee flash file system: pages, headers, collector, allocator | `CoffeeWalk`, `CoffeeCollector`, `CoffeeExtents`, `CoffeeSpare`, `CoffeeVolume`, `CoffeeGrants`, `CoffeeLostFile`, `CoffeeReluctant` |
| Coffee: micro logs, merging, descriptors, the bytes on the device, runs | `CoffeeLog`, `CoffeeTables`, `CoffeeSteps`, `CoffeeDevice`, `CoffeeFile`, `CoffeeRun`, `CoffeeFailures` |
| MiCMAC: channel prediction, phase table, rendezvous | `Channels`, `PhaseLock`, `Rendezvous` |
| Trickle timer (RFC 6206) | `TrickleLimits`, `TrickleRuns`, `TrickleTimer`, `TrickleLive` |
| SLIP driver (RFC 1055) under interrupts | `SlipCode`, `SlipRing`, `SlipDriver`, `SlipLossless`, `SlipRun` |
| lists, block pools, compacting allocator, neighbour tables | `Lists`, `MemoryBlocks`, `ManagedMemory`, `NeighborKeys`, `NeighborTables` |
| CSMA queues | `CsmaPackets`, `Csma`, `CsmaRun` |
| CRC16, GCR, ring buffer, protosockets | `Crc16`, `Gcr`, `RingBuffer`, `Psock` |
| shared | `Numbers`, `Bits`, `Cyclic`, `Streams`, `Wrappers` |

Code that changes state in C is a class or a method here, with loops where C has loops; every such method is proved
against a function or predicate on values, and the theorems are lemmas about those. Ghost fields record what C does
not keep: what was offered, received or acknowledged so far, and time that does not wrap.

How the parts are seen:

- **Coffee, page level.** Flash is an array of pages, and a page is the header its first bytes decode to plus the
  bytes of the page. Only the first page of an extent holds a real header; what the others look like as headers is
  arbitrary. `Walkable` says that the scan by `next_file` from page 0 is well formed, `Extents` is the map from its
  active headers to their pages. `Due` is the test by which a sector is erased, in terms of the extents alone.
- **Coffee, file level.** `FileSystem` runs on that device: `Device` lays the data of an extent out behind its header,
  byte `k` at `absolute_offset(page, k)`, and every reservation, collection, header and byte written or read goes
  through the page level. The ghost field `ext` is the map of the extents the files know of, each with its data, and
  `Backed` ties it to the pages. `stranded` says that a collection has left `*next_free` off the header walk; from
  then on no page is reserved here, while the C code goes on searching from there. What can be reserved is known before
  the call: `Grantable` says when the allocator has so many pages, `CanReserve` adds a slot. `Means` counts the erased
  pages at the end of the device, which reservations use up one by one. `starved` records that something was asked for
  in vain, and `Short` says what a write lacked. `Plain` is the specification: descriptors with offsets into shared
  byte arrays, each with the pages it has grown to. `Searched` says which pages a search finds and where the next one
  starts, and `InVain` that one failed and nothing was removed since, which is what `*gc_wait` stands for.
- **MiCMAC.** Clocks have 32 bits and hop counters 8; wake-up `m` of a receiver is on channel `WakeChannel(start + m)`
  and time is unbounded. `Meets` says that a prediction names a true later wake-up at least the guard time away, and
  the channel the receiver then has.
- **Trickle.** `TrickleRuns` is section 4.2 of RFC 6206 on a clock that never wraps; the timer of `TrickleTimer` works
  on a clock of 16 or 32 bits and every method is tied to a step of it.
- **SLIP.** The poll handler takes a function that gives the bytes which arrive before each of its statements and
  between any two bytes it copies. `Receive` is an independent parser of the byte stream. A run is the `Trace` of the
  moments between its events; `Smooth` says that packets are small enough and none says CLIENT, and `Spaced` when its
  bytes come, all in terms of the events and the bytes they brought.
- **Ring buffer.** Each access to what producer and consumer share is a method; any interleaving is a sequence of
  calls.

## What was found

- `find_contiguous_pages` refuses a run that would end exactly at the end of the device (`start + amount >= COUNT`).
- A greedy collection can leave `*next_free` on a page that no header scan visits: `SafeExactly` gives the exact
  condition. Whenever that happens, a file of at most a sector that is reserved next is found by no scan, and is erased
  by the next collection (`UnsafeLoses`, `LoseFile`); `StraddledIsUnsafe` is such an image. `reserve` gets there exactly
  if its first search fails, `*gc_wait` is clear and the image is not safe.
- A reluctant collection is documented to stop after one sector, but stops only behind a due sector whose last extent
  it has cut (`Stops`, in the contract of `CollectGarbage`); `CoffeeReluctant` has an image on which it erases two.
- When `reserve` finds pages but `load_file` no slot, the new extent stays on the device and no file knows of it: the
  contract of `CoffeeFile.FileSystem.Reserve` says so exactly, and `LeakRun` does it.
- `cfs_seek` accepts offsets up to the size of the pages, which is more than the extent's capacity by the size of the
  header.
- `cfs_write` returns the full size even when its log loop stopped early, as in `HalfWrite`. It writes at least what
  the records left in the log can take, and exactly that much if no descriptor is free (`Sure`, in the contract of
  `CoffeeFile.FileSystem.Write`); with a descriptor, a slot and pages enough it writes all.
- The loops of `cfs_read` and `cfs_write` over a log end if and only if fewer than 65536 bytes are left, as the size
  handed on has 16 bits (`EndsExactly`).
- The power-of-two branch of `mcphase_wait` is one hop ahead exactly on whole multiples of the cycle
  (`PredictsExactly`, and `RunPredicts` for the phase table after any run); the other branch is not. A column count
  that does not divide 256 breaks both prediction (`PredictionBreaks`) and rendezvous (`SometimesMissed`) at the wrap
  of the hop counter.
- `trickle_timer_config` rejects `k == 0`, which its header documents as the way to disable suppression.
- Trickle's wrapped waits are right exactly as long as what they wait for is at most half of the clock's range past
  (`WaitExactly`). Without compensation that is so whenever a callback is less than half of the range late (`RunTimer`).
  With it the delays of successive callbacks add up, and all waits of a run are right if and only if they never add up
  to too much (`AllRight`, `SmallDelays`); two delays that are each small enough can be too much (`LateTwice`).
- The SLIP poll handler can run two packets together: if two packets are completed between `begin = pkt_end` and the
  test of the state behind it, `pkt_end = end` covers both. It happens exactly if `Merges` holds of what arrives there,
  which takes two END bytes (`NoMergeBelowTwo`); `MergedRun` delivers any two packets as one. This is the only way in
  which the driver goes wrong while it gives up no byte (`DeliversExactly`); that neither happens can be told from the
  events alone (`Spaced`, `SpacedSoFar`).
- The test for `CLIENT` looks across the border of two packets: `ClientRun` forgets two packets that say it only
  together. A frame behind a lone escape is swallowed (`LoneEscape`), and only then (`SwallowsExactly`).
- `list_insert` of an element that is on the list already loses the elements between the two places, or closes a ring
  that no walk leaves (`Lists.List.Insert`).
- An acknowledgement pushed to the front of a CSMA queue inherits the counter of the packet it passed. It has a try
  left if and only if its own limit is above that counter (`PushKeepsTries`), and is sent as many times as it is above,
  but at least once (`PushAfterFailures`). A limit of transmissions is truncated to eight bits.

## Model

| member | source | states |
|---|---|---|
| CoffeeVolume.Volume.CollectGarbage | contiki80211/src/core/cfs/cfs-coffee.c:366-407 | a pass in either mode leaves every active extent as it was and the scan well formed, erases exactly the due sectors it looked at, isolates exactly the pages cut off from an erased header, touches no other, so that the image after a greedy pass is known page by page, and moves `*next_free` to the first sector erased below it; it ends behind the first due sector whose last extent a reluctant pass cuts, or else with the device |
| CoffeeReluctant.CollectReluctantly | contiki80211/src/core/cfs/cfs-coffee.c:366-407 | on an image with two obsolete files in two sectors a reluctant pass erases both |
| CoffeeReluctant.BothErased | contiki80211/src/core/cfs/cfs-coffee.c:385-405 | where such a pass stops follows from the exact condition: not before the end |
| CoffeeVolume.Volume.GetSectorStatus | contiki80211/src/core/cfs/cfs-coffee.c:246-343 | the counts of a sector with the static state carried over: free only behind the first free header, active pages zero exactly when no active extent touches the sector |
| CoffeeVolume.Volume.IsolatePages | contiki80211/src/core/cfs/cfs-coffee.c:346-363 | the pages get the isolated header and nothing else changes |
| CoffeeVolume.Volume.Reclaim | contiki80211/src/core/cfs/cfs-coffee.c:390-401 | isolation behind the sector and its erasure, and nothing else |
| CoffeeCollector.CountMeans | contiki80211/src/core/cfs/cfs-coffee.c:285-309 | the totals of the header loop add up to the page where the scan lands, and tell whether an active extent starts on the way and whether a free header is met |
| CoffeeCollector.CountFree | contiki80211/src/core/cfs/cfs-coffee.c:285-309 | free pages are the last ones of the sector, and are blank |
| CoffeeCollector.CountEnds | contiki80211/src/core/cfs/cfs-coffee.c:285-309 | the flag carried to the next sector: set only if an active extent reaches to where the scan lands, and clear only if no active extent leaves the sector |
| CoffeeCollector.DueMeans | contiki80211/src/core/cfs/cfs-coffee.c:376-383 | the test on the counts holds exactly when no active extent touches the sector and the mode wants it, whatever was erased before |
| CoffeeCollector.ReclaimStep | contiki80211/src/core/cfs/cfs-coffee.c:379-403 | after isolation and erasure the scan still lands where it did and finds the same active files so far |
| CoffeeCollector.Finish | contiki80211/src/core/cfs/cfs-coffee.c:366-407 | a collected image is well formed to its end and has the same extents with the same contents |
| CoffeeCollector.SweptIs | contiki80211/src/core/cfs/cfs-coffee.c:366-407 | a greedy pass has one result only: due sectors erased, obsolete pages reaching out of them isolated, all else as it was |
| CoffeeWalk.Split | contiki80211/src/core/cfs/cfs-coffee.c:410-428 | a header scan may be cut at any page: it goes through the page where it lands, and finds the files of both parts |
| CoffeeWalk.Disjoint | contiki80211/src/core/cfs/cfs-coffee.c:410-428 | the active extents of a well-formed image are pairwise disjoint and inside the device |
| CoffeeVolume.SafeExactly | contiki80211/src/core/cfs/cfs-coffee.c:387-389 | after a greedy pass `*next_free` is on the header walk if and only if no obsolete extent reaches into the first due sector below it |
| CoffeeVolume.IdleIsBlank | contiki80211/src/core/cfs/cfs-coffee.c:366-407 | after a greedy pass every sector that no active extent touches is blank |
| CoffeeLostFile.UnsafeLoses | contiki80211/src/core/cfs/cfs-coffee.c:387-403 | whenever a greedy pass is not safe, `*next_free` goes to an erased sector where any run of at most a sector fits; a file header written there changes neither scan nor extents, and its sector is due |
| CoffeeLostFile.LoseFile | contiki80211/src/core/cfs/cfs-coffee.c:366-407 | on every unsafe device the search behind a greedy pass grants a file of at most a sector its pages, unless they are the last ones of the device; the file is erased by the next pass, and no other is |
| CoffeeLostFile.StraddledIsUnsafe | contiki80211/src/core/cfs/cfs-coffee.c:387-403 | there are such devices: one whose second sector is the end of an obsolete file |
| CoffeeVolume.Volume.FindContiguousPages | contiki80211/src/core/cfs/cfs-coffee.c:537-570 | the first run on the walk from `*next_free` that is free and fits below the end of the device, or none if there is none |
| CoffeeExtents.NoFit | contiki80211/src/core/cfs/cfs-coffee.c:537-570 | a page the search passes over starts no run that fits |
| CoffeeVolume.RunAfterIs | contiki80211/src/core/cfs/cfs-coffee.c:366-407 | the page at which a greedy pass leaves `*next_free` is the only one there can be, so that a run behind it can be told before the pass |
| CoffeeVolume.Volume.ScanFile | contiki80211/src/core/cfs/cfs-coffee.c:492-497 | the quick-skip scan finds an active file of a name exactly if there is one |
| CoffeeVolume.Volume.Reserve | contiki80211/src/core/cfs/cfs-coffee.c:629-668 | adds one blank extent at a page run that was erased, keeps all others, keeps the image well formed and `*next_free` on the walk; the run is the first fit in the image as it was, or else in the one that a greedy pass leaves, and only its header is written; it has the pages if and only if the search finds a run, or `*gc_wait` is clear and a collection is safe and makes one; it is stranded if and only if it comes to a collection that is not safe; `*gc_wait` is set by a search that failed behind a collection, or was set already; on failure the extents are the same, and there is no run afterwards; it succeeds while the erased end of the device is longer, and shortens it by no more than its pages |
| CoffeeSpare.TailReserved | contiki80211/src/core/cfs/cfs-coffee.c:537-570 | taking the first run that fits leaves as much of the erased end as it did not use |
| CoffeeSpare.TailKept | contiki80211/src/core/cfs/cfs-coffee.c:222-226 | writing into an extent leaves the erased end of the device alone |
| CoffeeExtents.Reserved | contiki80211/src/core/cfs/cfs-coffee.c:652-667 | a header written on a free run adds exactly its extent |
| CoffeeExtents.Written | contiki80211/src/core/cfs/cfs-coffee.c:222-226 | writing inside an extent changes only that extent's contents, whatever the bytes look like as headers |
| CoffeeVolume.Volume.RemoveByPage | contiki80211/src/core/cfs/cfs-coffee.c:579-592 | the extent, and its log if asked, leave the map; their headers become obsolete and all other pages are untouched; `*gc_wait` is cleared; fails exactly for inactive headers |
| CoffeeGrants.Serve | contiki80211/src/core/cfs/cfs-coffee.c:579-668 | over any run of reservations and removals, until a collection is not safe, what every call comes to and the image and `*next_free` behind it follow from the image before and the outcomes before, with no flag named: a reservation finds no pages only if neither the image nor, unless one before it failed and nothing has been removed since, the one that a greedy pass would leave has a run |
| CoffeeExtents.Discarded | contiki80211/src/core/cfs/cfs-coffee.c:573-619 | the obsolete flag removes one extent and keeps the scan |
| CoffeeDevice.LaidOut | contiki80211/src/core/cfs/cfs-coffee.c:238-243 | byte k of an extent is at the address that `absolute_offset` gives, inside its pages |
| CoffeeDevice.Device.Reserve | contiki80211/src/core/cfs/cfs-coffee.c:629-668 | on the byte level: an extent of zeros appears at a page where none was, all other extents keep header and data; it does exactly if the allocator can grant the pages, which are those of the page level; `*gc_wait` changes only when nothing is found |
| CoffeeDevice.Device.ReadData | contiki80211/src/core/cfs/cfs-coffee.c:238-243 | reading at `absolute_offset` gives the bytes of the extent's data |
| CoffeeDevice.Device.WriteData | contiki80211/src/core/cfs/cfs-coffee.c:238-243 | bytes written at `absolute_offset` change just these bytes of that extent, whatever they look like as headers, and leave the walk in order |
| CoffeeDevice.Device.SetHeader | contiki80211/src/core/cfs/cfs-coffee.c:221-226 | a header rewritten with the same pages changes no data and no other extent |
| CoffeeDevice.Device.Remove | contiki80211/src/core/cfs/cfs-coffee.c:573-619 | the extent and its log are gone, and all other extents keep header and data |
| CoffeeLog.GetRecordIndex | contiki80211/src/core/cfs/cfs-coffee.c:702-739 | the batched backward search finds the last record of the region, or none |
| CoffeeLog.LastRecordIsNewest | contiki80211/src/core/cfs/cfs-coffee.c:702-739 | the record found holds the region and no later one does; none means no record holds it |
| CoffeeLog.ReadLogPage | contiki80211/src/core/cfs/cfs-coffee.c:743-769 | the bytes of the newest record for the region, cut at the region's end |
| CoffeeLog.NewestAfterPut | contiki80211/src/core/cfs/cfs-coffee.c:948-973 | a record appended is the newest of its region and shadows no other region |
| CoffeeLog.LogWrite | contiki80211/src/core/cfs/cfs-coffee.c:910-979 | appending a record of the region as seen, overlaid with new bytes, changes the file as seen in just those bytes |
| CoffeeLog.EndsExactly | contiki80211/src/core/cfs/cfs-coffee.c:1123-1139 | the rounds of a log loop, each cut to 16 bits and to a region, leave nothing in the end if and only if fewer than 65536 bytes are left at the start |
| CoffeeFile.FileSystem.Reserve | contiki80211/src/core/cfs/cfs-coffee.c:629-668 | a new blank extent and a slot for it if and only if pages can be granted and a slot is left; with pages but no slot the extent is left on the device unknown, and otherwise the device has the same extents; stranded exactly as the page level says; `*gc_wait` is set exactly if no pages can be granted or it was set |
| CoffeeFile.FileSystem.Read | contiki80211/src/core/cfs/cfs-coffee.c:1093-1147 | returns the bytes at the offset, up to the end, through the log where there is one, and moves only the offset |
| CoffeeFile.FileSystem.CreateLog | contiki80211/src/core/cfs/cfs-coffee.c:774-796 | the file is linked to an empty log and is seen as before, with other files kept, if and only if pages and a slot for it can be had; what becomes of `*gc_wait` |
| CoffeeFile.FileSystem.MergeLog | contiki80211/src/core/cfs/cfs-coffee.c:800-867 | the new extent holds exactly the bytes seen before, the open descriptors move to it with their offsets and counts, the old file and its log are gone, and `*gc_wait` is clear; or, if and only if a descriptor, pages or a slot are lacking, nothing changes |
| CoffeeSteps.Merged | contiki80211/src/core/cfs/cfs-coffee.c:800-867 | after the merge tables, counts and all other files are consistent and the contents of the moved file are the same |
| CoffeeFile.FileSystem.MoveDescriptors | contiki80211/src/core/cfs/cfs-coffee.c:840-850 | exactly the open descriptors of the old file move, and the count of the new one is their number |
| CoffeeFile.FileSystem.RemoveByPage | contiki80211/src/core/cfs/cfs-coffee.c:573-612 | file and log are gone and the slots that held them are free |
| CoffeeTables.RedirectedReferences | contiki80211/src/core/cfs/cfs-coffee.c:840-850 | reference counts after the descriptors were redirected |
| CoffeeFile.FileSystem.WriteLogPage | contiki80211/src/core/cfs/cfs-coffee.c:910-979 | a record is written and the file is patched, or a full log is merged and nothing is seen to change; or it fails, exactly if the log must be created or merged and cannot be, and nothing changes |
| CoffeeFile.FileSystem.WriteLogged | contiki80211/src/core/cfs/cfs-coffee.c:1191-1222 | the log loop ends and overwrites as many bytes as it reports at the offset, across merges: at least those for which there are records left, exactly those if no descriptor is free, all of them if there are a descriptor, a slot and pages enough; when it stops early the log can be neither created nor merged |
| CoffeeFile.FileSystem.Write | contiki80211/src/core/cfs/cfs-coffee.c:1150-1242 | the bytes that got into the file overwrite its contents at the offset, across growth, merges and records, and all other open files are as before; a file that has grown has the first doubling of its pages that holds them; that is all of them if there are a descriptor, a slot and pages enough, at least what the log can take, exactly that if no descriptor is free; if the log can take it once it is there, all of it if and only if it is there or can be created, and at the end of a file that must grow once, if and only if there are a descriptor, a slot and pages for that; otherwise it says which of them is lacking, and -1 means none |
| CoffeeFile.FileSystem.Extend | contiki80211/src/core/cfs/cfs-coffee.c:1172-1179 | the file grows by merging until the write fits, to the first doubling of its pages that is enough, and is seen as before; or a descriptor, a slot or the doubled pages are lacking |
| CoffeeFile.FileSystem.Seek | contiki80211/src/core/cfs/cfs-coffee.c:1042-1071 | from the start, the end or the offset: it goes exactly where it is told from 0 up to the size of the pages, and nowhere else; the end moves only past the old end, and up to the capacity the file grows by zeros |
| CoffeeFile.FileSystem.Open | contiki80211/src/core/cfs/cfs-coffee.c:996-1028 | the first free descriptor on an existing file if there is one, or on a new file, in the slot that `load_file` takes, when writing if pages and a slot can be had, too, with offset and flags as asked; others keep theirs |
| CoffeeFile.FileSystem.Close | contiki80211/src/core/cfs/cfs-coffee.c:1032-1039 | one reference fewer and everything else as before |
| CoffeeFile.FileSystem.FindCached | contiki80211/src/core/cfs/cfs-coffee.c:480-489 | finds the cached active file of a name exactly if there is one |
| CoffeeFile.FileSystem.LoadFile | contiki80211/src/core/cfs/cfs-coffee.c:431-470 | takes the first slot that caches nothing, or else the last that no descriptor refers to, and fails exactly if there is neither |
| CoffeeRun.Execute | contiki80211/src/core/cfs/cfs-coffee.c:1042-1242 | on the device, with its allocator, collector and byte layout, any sequence of reads, writes and seeks on open descriptors gives what plain byte arrays give, with the zeros behind the end that a seek leaves and the pages that writes have doubled, up to a write that lacks a descriptor, a slot or pages, as then stated; and none does if one descriptor and one slot are free and the erased end of the device is longer than the writes can use up |
| CoffeeRun.AbstractRepresents | contiki80211/src/core/cfs/cfs-coffee.c:1042-1242 | every consistent state stands for plain byte arrays, which descriptors of one file share |
| CoffeeRun.WriteRepresents | contiki80211/src/core/cfs/cfs-coffee.c:1150-1242 | a write that may have moved the file is the write on the byte arrays, for all descriptors |
| CoffeeFailures.LeakRun | contiki80211/src/core/cfs/cfs-coffee.c:652-667 | on every device that has room for two files but one slot: the second file is not created, and its extent stays on the device, of no file |
| CoffeeFailures.HalfWrite | contiki80211/src/core/cfs/cfs-coffee.c:1191-1242 | for every file and log size: a write that goes through the log with one descriptor in all returns its full size, having written the bytes its log has records for |
| Channels.PredictsExactly | micmac/net/mac/mcphase.c:189-221 | for a power-of-two cycle and columns that divide 256 the prediction meets the receiver, after any elapsed time, if and only if that is no whole number of cycles or the table has one column |
| Channels.PredictsWakeUp | micmac/net/mac/mcphase.c:189-221 | the prediction names a wake-up at least the guard time away and the receiver's channel at it, despite the wraps of clock and counters |
| Channels.OneHopAhead | micmac/net/mac/mcphase.c:205-220 | on whole multiples of the cycle time and wait are right and the channel is the next wake-up's |
| Channels.PredictsAnyCycle | micmac/net/mac/mcphase.c:208-220 | the general branch, which is taken for cycles that are no power of two, is right for every elapsed time below the clock's range |
| Channels.PredictionBreaks | micmac/net/mac/mccontikimac.c:334-351 | with columns that do not divide 256 the prediction across the counter's wrap is wrong |
| Channels.HopsWrap | micmac/net/mac/mccontikimac.c:334-351 | eight-bit hop counters keep the place in the row when the columns divide 256 |
| Channels.ChannelIs | micmac/net/mac/mccontikimac.c:334-351 | the table is stored row by row, and the last four bits of an address select the row |
| Channels.ReceiverChannelIndex | micmac/net/mac/mccontikimac.c:383-393 | the place behind the first one of the row with the channel, or the start of the row |
| Channels.SeedFromChannel | micmac/net/mac/mccontikimac.c:380-393 | in a row without repetitions that place is the receiver's at the acknowledged wake-up |
| PhaseLock.PhaseTable.Update | micmac/net/mac/mcphase.c:94-140 | an acknowledgement is recorded with its time and place, if there is an entry or room for one; a missing one is counted, and the sixteenth in a row or one behind the timer drops the entry; any other status does nothing; other entries stay, unless the table evicts one to make room, which is an event of that neighbour |
| PhaseLock.PhaseTable.Evict | contiki80211/src/core/net/nbr_table.c:191-224 | an eviction removes the neighbour's entry and no other |
| PhaseLock.KnownExactly | micmac/net/mac/mcphase.c:94-140 | after any events there is an entry if and only if there was an acknowledgement that found room or an entry, and since the last one no eviction, fewer than 16 missing ones and none behind the timer; its count is that of the missing ones |
| PhaseLock.PhaseTable.Wait | micmac/net/mac/mcphase.c:159-247 | the search and the arithmetic compute the prediction for the recorded entry |
| PhaseLock.StaysLocked | micmac/net/mac/mcphase.c:94-140 | in every run an entry is locked to the true wake-up of the last acknowledgement and counts the acknowledgements missing since, fewer than 16 |
| PhaseLock.LockedPredicts | micmac/net/mac/mcphase.c:189-221 | from an entry locked to any past wake-up the prediction meets the receiver if and only if not a whole number of cycles went by since, or there is one channel |
| PhaseLock.RunPredicts | micmac/net/mac/mcphase.c:94-247 | so after every run the prediction meets the receiver, counted from the wake-up of the last acknowledgement, if and only if that holds |
| PhaseLock.RunTable | micmac/net/mac/mcphase.c:94-140 | after any run of updates and evictions every neighbour's entry is the one these lemmas speak of, and is there exactly as `KnownExactly` says |
| Rendezvous.AlwaysMet | micmac/net/mac/mccontikimac.c:886-890 | strobing on any channel of the row for as many strobe times as columns covers a wake-up on it, whatever phase and place |
| Rendezvous.AnySenderMeets | micmac/net/mac/mccontikimac.c:976-982 | with rows of the same channels any sender meets any receiver |
| Rendezvous.SometimesMissed | micmac/net/mac/mccontikimac.c:354-357 | for every column count that does not divide 256 there is a window that misses the receiver |
| Rendezvous.Hop4SameChannels | micmac/net/mac/mccontikimac-hopseq.h:345-367 | the four-channel table meets these conditions |
| TrickleLimits.MaxImaxGeneric | contiki80211/src/core/lib/trickle-timer.c:96-111 | returns the largest doubling count the pair test accepts, for 16 and 32 bits |
| TrickleLimits.MaxImax16 | contiki80211/src/core/lib/trickle-timer.c:113-128 | counts the leading zeros of the interval |
| TrickleLimits.MaxImax32 | contiki80211/src/core/lib/trickle-timer.c:129-148 | counts the leading zeros of the interval |
| TrickleLimits.FixedIsSafe | contiki80211/src/core/lib/trickle-timer.c:113-151 | the fixed-width answers are accepted, and one below the largest exactly for powers of two |
| TrickleLimits.AcceptedFits | contiki80211/src/core/lib/trickle-timer.h:304-322 | an accepted pair never leaves half of the clock's range |
| TrickleTimer.Timer.Config | contiki80211/src/core/lib/trickle-timer.c:329-373 | fails exactly on bad arguments; otherwise the doublings are the asked ones or the largest that fit, and the maximum interval is at most half of the range |
| TrickleTimer.Timer.Set | contiki80211/src/core/lib/trickle-timer.c:376-407 | starts an interval between the limits with t in its second half |
| TrickleTimer.GetT | contiki80211/src/core/lib/trickle-timer.c:157-165 | t lies in [I/2 rounded down, I) |
| TrickleTimer.DrawsAll | contiki80211/src/core/lib/trickle-timer.c:157-165 | and every value there is drawn, but for the last one of an odd I |
| TrickleTimer.Timer.Fire | contiki80211/src/core/lib/trickle-timer.c:168-186 | transmits exactly if fewer than k consistent messages were heard in the interval; the wait is that for the true end if and only if the end is at most half of the range past |
| TrickleTimer.Timer.DoubleInterval | contiki80211/src/core/lib/trickle-timer.c:191-254 | the interval doubles up to its maximum, and its counter is zero; with compensation it starts where the last one ended, and the wrapped wait is the true one if and only if what it waits for is at most half of the range past |
| TrickleTimer.Timer.Inconsistency | contiki80211/src/core/lib/trickle-timer.c:316-326 | resets to the minimum unless there already, and starts a timer that was stopped |
| TrickleTimer.Timer.Consistency | contiki80211/src/core/lib/trickle-timer.c:307-313 | counts one more, saturating |
| TrickleTimer.PastExactly | contiki80211/src/core/lib/trickle-timer.c:178-183 | the wrapped test for the past is right exactly from half of the range behind to just below half ahead |
| TrickleTimer.WaitExactly | contiki80211/src/core/lib/trickle-timer.c:178-183 | the wrapped wait is right if and only if what it waits for is to come or at most half of the range past, and else too long |
| TrickleLive.RunTimer | contiki80211/src/core/lib/trickle-timer.c:168-326 | over any run of its methods the timer goes through allowed steps of the algorithm, one for each thing that happens; its counter is the consistent messages since the last expiry, start or reset that was one, up to 255, and each transmission is suppressed exactly if they were k or more; without inconsistencies I is min(I0 * 2^n, maximum) after n expiries, and with compensation the wrapped start is the first one plus all lengths since; each call of the callback has the clock, the time due and the time wanted of its point of the run, and is set to what the wrapped clock makes of the wait for the next time wanted; the timer waits for what the last call set, or for the first transmission of the start or reset since; without compensation every wait of a callback less than half of the range late is right |
| TrickleLive.AllRight | contiki80211/src/core/lib/trickle-timer.c:168-254 | all waits of such a run are right if and only if the delays, less the gaps between the times due, never add up to more than half of the range |
| TrickleLive.SmallDelays | contiki80211/src/core/lib/trickle-timer.c:168-254 | they are if the delays since the start or the last reset add up to no more than half of the range |
| TrickleLive.LateTwice | contiki80211/src/core/lib/trickle-timer.c:224-254 | two callbacks each less than half of the range late: with compensation the next transmission, which is past, is scheduled at once exactly if the delays are small enough together |
| TrickleRuns.RunsStaySound | contiki80211/src/core/lib/trickle-timer.c:191-326 | over all runs the interval stays between its limits and t in its second half |
| TrickleRuns.Doubles | contiki80211/src/core/lib/trickle-timer.c:207-217 | after n expiries the interval is min(I * 2^n, maximum) |
| TrickleRuns.SizeSinceReset | contiki80211/src/core/lib/trickle-timer.c:316-326 | after a reset it is the minimum doubled once per expiry since, whatever was before |
| TrickleRuns.SeamlessBegin | contiki80211/src/core/lib/trickle-timer.c:224-239 | with compensation an interval begins exactly the lengths of all before it after the first |
| TrickleRuns.OnePerInterval | contiki80211/src/core/lib/trickle-timer.c:259-282 | exactly one transmission decision falls into every interval that runs to its end |
| TrickleRuns.CountsThisInterval | contiki80211/src/core/lib/trickle-timer.c:307-313 | the counter is the number of consistent messages of this interval |
| TrickleRuns.CountsSince | contiki80211/src/core/lib/trickle-timer.c:191-313 | over any run the counter is the number of messages heard since the last expiry or reset that was one, whatever came before |
| TrickleRuns.CountsAnew | contiki80211/src/core/lib/trickle-timer.c:191-326 | so an interval that an expiry or such a reset begins counts from zero |
| TrickleRuns.ListenOnly | contiki80211/src/core/lib/trickle-timer.c:155-165 | the times due in consecutive intervals are more than half of the later one apart |
| SlipCode.RoundTrip | contiki80211/src/core/dev/slip.c:131-153 | parsing what `slip_write` wrote gives the non-empty packets in order |
| SlipCode.ScanReceives | contiki80211/src/core/dev/slip.c:319-394 | the byte-by-byte automaton finds the packets of the parser |
| SlipCode.Resynchronises | contiki80211/src/core/dev/slip.c:319-366 | after any noise at most the first packet is lost |
| SlipCode.SwallowsExactly | contiki80211/src/core/dev/slip.c:319-366 | a packet framed behind any noise is lost if and only if the noise ends in an escape, and nothing else is |
| SlipCode.LoneEscape | contiki80211/src/core/dev/slip.c:319-366 | a lone escape costs the packet behind it and no other |
| SlipDriver.Driver.Write | contiki80211/src/core/dev/slip.c:131-153 | puts the framed packet on the line |
| SlipDriver.Driver.InputByte | contiki80211/src/core/dev/slip.c:319-394 | at any point of the poll handler: cyclic order and the meaning of the states are kept, the buffer holds what the abstract receiver would, and a poll is asked for exactly if a packet is complete or a T has been stored in a buffer that starts with a C |
| SlipDriver.Driver.PollHandler | contiki80211/src/core/dev/slip.c:164-251 | with interrupts before any statement and between copied bytes: it forgets everything exactly if the buffer says CLIENT at the test; else a packet is taken exactly if one waits at the test, and handed out whole unless too long; packets are run together exactly if the gap completes two; and whatever arrives at its statements, what the buffer holds then, which bytes came in and in which of the four named ways some were lost is a function of the state before |
| SlipDriver.Driver.Release | contiki80211/src/core/dev/slip.c:238-246 | two packets are run together exactly when both are completed between the first two statements |
| SlipRing.AcceptTracks | contiki80211/src/core/dev/slip.c:72-86 | every byte received keeps handed-out plus waiting packets equal to what came in |
| SlipRing.SliceGrows | contiki80211/src/core/dev/slip.c:371-385 | the full test holds exactly at one byte below the size; otherwise the byte is appended and the first packet untouched |
| SlipRing.MergesNeedTwo | contiki80211/src/core/dev/slip.c:238-242 | a merge needs two packet ends between two statements |
| SlipRing.NoMergeBelowTwo | contiki80211/src/core/dev/slip.c:238-242 | packets are run together only if two END bytes arrive in the gap |
| SlipRing.MergeHappens | contiki80211/src/core/dev/slip.c:238-242 | the frames of any two packets that fit and arrive in the gap are run together, with no byte lost |
| SlipRing.AcceptFramed | contiki80211/src/core/dev/slip.c:319-394 | a frame that fits becomes the first or second packet of the buffer, with no byte lost |
| SlipRing.DeliversExactly | contiki80211/src/core/dev/slip.c:164-394 | if no byte was given up, handed-out plus waiting packets are those sent if and only if none were run together, and the same bytes in any case |
| SlipRun.Serve | contiki80211/src/core/dev/slip.c:164-394 | over any run of bytes and polls: every event does exactly what its contract says from one moment to the next, and brings the bytes of the statements it goes through, in order; with no byte given up, handed-out plus waiting packets are those of the bytes that came if and only if none were run together, and none are if no poll has two END bytes in its gap; if the packets fit and none says CLIENT, no byte is dropped and no packets are run together if and only if the events are spaced, and then no byte is given up at all |
| SlipLossless.EventExactly | contiki80211/src/core/dev/slip.c:164-394 | from a moment at which nothing has been lost, an event drops no byte and runs no packets together if and only if it is spaced: no byte arrives while two packets are waiting, and a gap behind a lone packet does not complete two |
| SlipLossless.SpacedSoFar | contiki80211/src/core/dev/slip.c:164-394 | over any run of small packets, all events so far were spaced if and only if no byte was dropped and no two packets were run together, and then as many packets are handed out as the polls that found one |
| SlipLossless.GapExactly | contiki80211/src/core/dev/slip.c:238-246 | the part of a poll behind its test loses and merges nothing exactly under that condition |
| SlipLossless.FindsExactly | contiki80211/src/core/dev/slip.c:213 | a poll finds a packet exactly if one more is complete than were taken |
| SlipLossless.NoClient | contiki80211/src/core/dev/slip.c:167-170 | the test for CLIENT fails as long as nothing was lost and neither a packet nor two in a row start with it |
| SlipLossless.QuietInput | contiki80211/src/core/dev/slip.c:164-394 | if nothing arrives during polls, the bytes received are those that arrived between them |
| SlipRun.MergedRun | contiki80211/src/core/dev/slip.c:238-242 | a run that delivers any two packets as one |
| SlipRun.ClientRun | contiki80211/src/core/dev/slip.c:164-182 | a run in which two packets that say CLIENT only together are forgotten |
| Lists.List.Add | contiki80211/src/core/lib/list.c:142-158 | the element is last, once, and the others keep their order |
| Lists.List.Push | contiki80211/src/core/lib/list.c:164-173 | the element is first, once, and the others keep their order |
| Lists.List.Remove | contiki80211/src/core/lib/list.c:239-262 | the element is gone and its link cleared; without it nothing changes |
| Lists.List.Tail | contiki80211/src/core/lib/list.c:117-128 | the last element, or null |
| Lists.List.Chop | contiki80211/src/core/lib/list.c:185-204 | takes the last element off |
| Lists.List.Pop | contiki80211/src/core/lib/list.c:217-226 | takes the first element off |
| Lists.List.Length | contiki80211/src/core/lib/list.c:274-284 | the number of elements |
| Lists.List.Insert | contiki80211/src/core/lib/list.c:302-311 | puts an element behind a given one; one that is on the list already cuts out all between the two if it is before that one, and closes a ring otherwise |
| Lists.WithoutKeeps | contiki80211/src/core/lib/list.c:239-262 | removal keeps the list free of repetitions and all other members |
| MemoryBlocks.Alloc | contiki80211/src/core/lib/memb.c:59-76 | takes the first block not in use, or fails exactly if all are |
| ManagedMemory.Memory.Alloc | contiki80211/src/core/lib/mmem.c:83-107 | succeeds exactly if the size fits what all live blocks leave, and keeps every block and its contents |
| ManagedMemory.Memory.Free | contiki80211/src/core/lib/mmem.c:119-140 | the other blocks keep order, size and contents under their moved pointers, and tile the memory again |
| ManagedMemory.Memory.LowerBehind | contiki80211/src/core/lib/mmem.c:129-133 | exactly the pointers behind the freed block move down by its size |
| ManagedMemory.ClosedTiles | contiki80211/src/core/lib/mmem.c:119-140 | closing the gap leaves a tiling without the block |
| ManagedMemory.ShiftKeeps | contiki80211/src/core/lib/mmem.c:124-133 | every other block reads the same bytes after the move |
| NeighborTables.Tables.Add | contiki80211/src/core/net/nbr_table.c:272-310 | the neighbour's slot, a fresh one, the victim's, or none exactly if all are locked; keys stay distinct in address and slot, and used bits on listed slots |
| NeighborTables.Tables.PickVictim | contiki80211/src/core/net/nbr_table.c:176-201 | the oldest among the unlocked neighbours used by the fewest tables, or none if all are locked |
| NeighborTables.Tables.Evict | contiki80211/src/core/net/nbr_table.c:206-223 | the neighbour leaves the list, its bits are cleared, the tables are called |
| NeighborTables.CallsExactly | contiki80211/src/core/net/nbr_table.c:208-216 | called are exactly the tables that use it and have a callback, each once |
| NeighborKeys.CountUsers | contiki80211/src/core/net/nbr_table.c:182-190 | the bit loop counts the tables that use a neighbour |
| NeighborTables.Tables.GetFromAddress | contiki80211/src/core/net/nbr_table.c:315-319 | what looking the address up among the table's own entries gives |
| NeighborTables.Tables.Enumerate | contiki80211/src/core/net/nbr_table.c:245-268 | head and next visit exactly the table's entries, in insertion order |
| NeighborTables.Tables.Next | contiki80211/src/core/net/nbr_table.c:259-268 | the first entry behind the item |
| NeighborTables.Tables.Head | contiki80211/src/core/net/nbr_table.c:245-255 | the first entry |
| NeighborTables.Tables.Remove | contiki80211/src/core/net/nbr_table.c:322-328 | clears used and lock bit of the table only |
| NeighborTables.Tables.SetLock | contiki80211/src/core/net/nbr_table.c:332-342 | sets or clears the lock bit of the table only |
| NeighborTables.Tables.Register | contiki80211/src/core/net/nbr_table.c:230-241 | the next index, up to eight tables |
| NeighborKeys.EntriesRemaining | contiki80211/src/core/net/nbr_table.c:217-222 | an eviction takes just that neighbour out of every table |
| NeighborKeys.EntriesWithNew | contiki80211/src/core/net/nbr_table.c:284-308 | a new neighbour enters one table, at its end, and no other |
| NeighborKeys.EntriesCleared | contiki80211/src/core/net/nbr_table.c:322-328 | a removal takes just that entry out of its table |
| NeighborKeys.EntriesOtherTables | contiki80211/src/core/net/nbr_table.c:143-157 | and changes no other table |
| NeighborKeys.EntriesSet | contiki80211/src/core/net/nbr_table.c:303-308 | using a known neighbour adds just that entry |
| Csma.Mac.SendPacket | micmac/net/mac/csma.c:301-382 | a packet is queued exactly if its neighbour is known or fits and not all packet blocks are queued, at the end or in front, with its limit in eight bits and the next sequence number; else its callback hears of an error at once; all accounts stay balanced; first packets keep a try left unless an acknowledgement passes a packet that failed at least as often as its own limit |
| Csma.Mac.PacketSent | micmac/net/mac/csma.c:196-298 | a report on the packet at any place of the queue: with a status other than a collision or a missing acknowledgement it leaves the queue and its callback hears the status and the counter; with one of these it does if and only if the counter has reached its limit, and otherwise queues and callbacks stay and the timer is set within the bounds of the delay; a number that is not in the queue changes only the counter; counters and timers of other neighbours stay |
| Csma.ReportedAnswers | micmac/net/mac/csma.c:196-298 | the cases of a report, which the contract of `PacketSent` states without the function that computes them |
| Csma.Mac.Balance | micmac/net/mac/csma.c:166-382 | packets offered are callbacks made plus packets queued; blocks of each pool in use are the packets queued, neighbour blocks the neighbours listed |
| Csma.Mac.TakeOut | micmac/net/mac/csma.c:167-175 | the packet's blocks return to their pools |
| Csma.Mac.Proceed | micmac/net/mac/csma.c:178-191 | the neighbour starts over with its next packet or leaves with its last |
| Csma.ReportKeepsTries | micmac/net/mac/csma.c:274-286 | a report on the first packet never exceeds its limit of transmissions, and what is first then has tries left |
| Csma.PushKeepsTries | micmac/net/mac/csma.c:353-358 | an acknowledgement pushed in front of any queue has a try left if and only if its limit is above the counter it inherits |
| CsmaRun.PushAfterFailures | micmac/net/mac/csma.c:353-358 | a run for any number of failures and any limit: the acknowledgement is sent max(1, limit - failures) times and then given up, and its callback hears of the failures of both |
| CsmaRun.Serve | micmac/net/mac/csma.c:196-382 | over any run of packets offered and transmissions reported: a packet whose transmission is acknowledged, or cannot be made, is reported with that status there and then, and if its client offered it once, is never in a queue nor reported again |
| Csma.RetryDelay | micmac/net/mac/csma.c:256-272 | the delay lies in [T, (1 + min(3, transmissions + 1)) * T) |
| Csma.RetrySpread | micmac/net/mac/csma.c:256-272 | every delay within the bounds is drawn |
| CsmaPackets.OwnedSize | micmac/net/mac/csma.c:167-175 | as many blocks are in use as packets hold one |
| Csma.Mac.NeighborFromAddress | micmac/net/mac/csma.c:117-127 | the listed neighbour of an address exactly if there is one |
| Crc16.Add | contiki80211/src/core/lib/crc16.c:47-63 | eight steps of the serial division with the reflected polynomial |
| Crc16.Data | contiki80211/src/core/lib/crc16.c:66-75 | the serial division of the whole message |
| Crc16.BurstDetected | contiki80211/src/core/lib/crc16.c:47-75 | messages that differ within sixteen consecutive bits have different CRCs |
| Crc16.AppendedLeavesNothing | contiki80211/src/core/lib/crc16.c:47-75 | a message with its CRC appended divides without remainder |
| Gcr.RoundTrip | contiki80211/src/core/lib/gcr.c:78-125 | decoding gives all bytes exactly if their number is a multiple of four, else all but the last |
| Gcr.EncodeAll | contiki80211/src/core/lib/gcr.c:78-94 | the stream is the codes of the bytes, as far as whole bytes go; finished exactly for multiples of four |
| Gcr.DecodeAll | contiki80211/src/core/lib/gcr.c:97-125 | a stream of codes is decoded as far as whole codes go |
| Gcr.Coder.Encode | contiki80211/src/core/lib/gcr.c:78-83 | ten bits join the accumulator and none is lost |
| Gcr.Coder.Decode | contiki80211/src/core/lib/gcr.c:97-100 | eight bits join the accumulator and none is lost |
| Gcr.DecodesCode | contiki80211/src/core/lib/gcr.c:43-61 | the tables are inverse to each other |
| Psock.Socket.ReadAll | contiki80211/src/core/net/psock.c:251-276 | however the stream is cut into segments the reads are its records, but for a full buffer without marker that ends the stream so far |
| Psock.Socket.BufTo | contiki80211/src/core/net/psock.c:107-128 | copies up to and including the marker, or until the buffer is full or the data is used up |
| Psock.RecordsJoin | contiki80211/src/core/net/psock.c:251-276 | a stream has only one division into records |
| Psock.Socket.SentAndAcked | contiki80211/src/core/net/psock.c:131-156 | a chunk counts as it was sent exactly if the segment size still gives the same one |
| Psock.Socket.ResumeSend | contiki80211/src/core/net/psock.c:158-189 | with a fixed segment size the acknowledged chunks are a prefix, and all of the data at the end |
| Psock.SendRun | contiki80211/src/core/net/psock.c:158-189 | the same over any run of acknowledgements, retransmissions and polls |
| RingBuffer.Run | contiki80211/src/core/lib/ringbuf.c:52-93 | however put and get interleave, they do what they would do on a queue: the bytes accepted are those of the puts that found room, in order, the bytes taken are the oldest of them, one for each get that found one, and at most size - 1 are held |
| RingBuffer.Ring.Store | contiki80211/src/core/lib/ringbuf.c:66 | the slot written holds nothing unread |
| RingBuffer.Ring.Release | contiki80211/src/core/lib/ringbuf.c:87-89 | returns the oldest byte |
| RingBuffer.Ring.Elements | contiki80211/src/core/lib/ringbuf.c:101-105 | the bytes accepted less those taken |
| RingBuffer.MaskedPointers | contiki80211/src/core/lib/ringbuf.c:63-67 | the masked differences of pointers are distances around the buffer |

## Left out

- CoffeeFile.FileSystem.Reserve: once a collection has stranded `*next_free` the C code goes on searching from there; here nothing more is reserved.
- CoffeeVolume.Volume.Reserve: what the search after an unsafe collection finds is not modelled either; CoffeeLostFile.LoseFile shows why it is lost.
- CoffeeFile.FileSystem.RemoveByPage: closing the descriptors and the collection behind it, which only `cfs_remove` asks for, are left out with it.
- CoffeeFile.FileSystem.Open: a file that exists is taken to be cached; one that left the cache is loaded again by C with a length found by rescanning, and `find_next_record` and `file_end` are not modelled.
- CoffeeFile.FileSystem.Read: a read that would leave 65536 bytes or more to its log loop is excluded, as the loop never ends then (CoffeeLog.EndsExactly).
- CoffeeFile.FileSystem.Write: a write of 65536 bytes or more that goes through the log is excluded for the same reason, and region and record numbers must fit their 16 bits; for a write that must merge its log and create a new one there is a sufficient condition before the call, and the reason after it.
- CoffeeRun.Execute: a seek between the capacity of a file and the end of its last page, which leaves the end outside the extent, is excluded from runs; the contract of CoffeeFile.FileSystem.Seek says what it does.
- Log records and merged regions are built from the whole data of the extents, loaded at once, instead of reading the parts needed.
- CoffeeVolume.Volume.CollectGarbage: the sector mask is taken as rounding to a sector, for sectors of a power of two pages.
- Coffee once it is stranded, `cfs_remove` and the directory functions, log configuration, file names of more than 19 characters.
- MiCMAC drift correction, the deferral queue and busy waiting of `mcphase_wait`, CCA sampling, acknowledgement timing, broadcast channels: the radio is an oracle.
- TrickleTimer.Timer.Config: a shift by the word's width or more, which C leaves undefined for large `i_max`, leaves nothing.
- Trickle callbacks read the clock once in the model; callbacks that reset their own timer are not modelled.
- SlipDriver.Driver.PollHandler: the test for `CLIENT` and 16-bit indices are read in one step; the MAC address request and IP processing are not modelled.
- SlipDriver.Driver.Write: packets have at most 65535 bytes, beyond which the 16-bit loop counter never ends.
- ManagedMemory.Memory.Alloc: the handle must not hold a live block already, which the C code would leak.
- `list_copy`, which makes two lists share their elements.
- NeighborTables.Tables.Add: the items' own data, which it clears, is not modelled, nor are callbacks that call the table again.
- Csma.Mac.PacketSent: callbacks that send again at once are not modelled; `transmit_packet_list` only hands the queue on, and queue buffers are one counted pool.
- `gcr_valid`, whose test of the upper code can never be true.
- `psock_readbuf_len`, `psock_generator_send`, and reads and sends in turns on one protosocket.
- Psock.Socket.ResumeSend: the segment size is fixed; what a change does is in the contract of Psock.Socket.SentAndAcked.
- Hardware, configuration headers, user interface and network client code.
