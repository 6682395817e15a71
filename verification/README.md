# Storage provider: local state and the algorithms that keep it consistent

A storage provider keeps files for contracts on a chain. This project models what the provider stores
and the code that changes it: the contract index, the downtime counters, the storage directories, the
queue of messages waiting for a transaction, the files and their Merkle leaves, the migration of old
directories, and the hands that claim stray files. Each part is modelled twice where the code changes
state: as classes and methods in the code's own form, and as a machine of single steps over which the
properties of whole runs are proved. The methods' contracts, or lemmas beside them, connect the two.

| file | part |
|---|---|
| Collections, Text, Numerals, Wrappers | the string, number and result helpers of the source language that the code relies on |
| ReferenceList | the comma-terminated lists in the index and the raw substring deletion in them |
| ContractIndex | the index (class and specification) and its refinement of a list of links |
| DealState | the classification of the chain's replies |
| ShiftMachine | proof server, uploads, recollection and pruning as interleaved single writes, with stops |
| Recollection | recollecting the chain's deals, then pruning |
| FileServer | the methods that perform those writes; a ghost run ties each to the machine |
| ActiveDeals | the paged queries for active deals |
| Batching | the greedy choice of a batch, and its optimality |
| QueueMachine, UploadQueue | the upload queue as a machine and as a class |
| Chunking, Archive | blocks, leaves, stored pieces and proofs |
| MigrationMachine, MigrationReads, Migration | migration as a machine that may stop anywhere, what readers see meanwhile, and the methods |
| HandMachine, Strays | the hands as an interleaved machine; collecting, dealing and processing strays |

Assumptions that the properties need, and that the code relies on without checking:

- Contract ids are 63 characters long, start with `jklc` and contain no comma; file ids start with
  `jklf` (jprov/utils/id.go:5-11). Where an id's length matters the exact condition is proved
  (`ReferenceList.DeletionRemovesElement`), with an input for which the deletion goes wrong.
- One operation of the index and the guard of a hand are single steps. So are pruning's lookup and removal
  of one directory: in the commands that prune (jprov/jprovd/provider_commands.go:281-294, 377-398, 488-502) only the
  proof server runs beside it, which adds no reference. A counter is read in one step and written in another.
- Nothing else changes the storage while it is migrated. The migrate command starts the proof server beside
  the migration (jprov/jprovd/provider_commands.go:388-402), whose purges can remove a directory meanwhile.
- Iterators are snapshots; the order of map keys and directory entries is left open.
- The hash is abstract, and injective where a property says so; so is the root of the Merkle tree.
- The chain's replies, the outcomes of transactions, claims and downloads, and the arrivals of uploads
  are parameters or events and are never restricted.

Properties that do not hold unconditionally, with the exact condition proved:

- A substring deletion removes exactly the intended element if and only if the first element that ends
  in the id is that id or is directly followed by it; for ids of one length that is always so.
- Cleaning can stop on a missing contract if and only if the allowed number of misses is negative.
- A stored counter is the number of recorded not-found visits since anything last cleared it if and only if
  no upload's reset fell between the reading and the writing of the counter, except harmless ones: of a
  counter that was zero, or cleared again later (`ShiftMachine.NoSurvivorsIffHarmless`). So a purge can
  follow a single visit after an upload (`ShiftMachine.PurgedByOverwrite` builds such a run).
- A purged contract has more than the allowed misses at that moment if and only if nothing cleared them
  since the cleaning began (`ShiftMachine.PurgedDespiteReset` builds a run without).
- A directory is deleted while its file is referenced if and only if a reference was added after the
  last one was dropped (`ShiftMachine.ReferencedDirDeleted` builds such a run).
- Recollection and pruning keep every live deal's directory when index and chain agree; where they do
  not, the directories kept are exactly the referenced ones.
- A queue is emptied if and only if every message fits the limit.
- Cleaning up after migration spares the glued file if and only if the directory's name is not a number.
- Gluing succeeds if and only if the block names are exactly those of 0 to n-1.
- After a file is written over another of the same name, which the code does not truncate, every piece matches
  the leaf made from the data if and only if the old file was not longer or the data is whole blocks.
- A legacy short last block reads the same before and after migration if and only if it has full size.
- A proof for a piece is for the piece's own leaf if and only if no earlier block spells it out, that is,
  has the hexadecimal form made of the rest of the piece's index and the piece. Only a short last piece
  can be spelled out, and `Chunking.LeafSharedAtShortEnd` gives a file in which it is.
- An intact directory is marked as corrupted if and only if a check finds a glued file other than the
  whole one, which takes a stop while it was glued.

## Model

| member | source | states |
|---|---|---|
| Text.RemoveFirstAt | jprov/archive/contract.go:127 | removing a substring once cuts out its first occurrence and nothing else |
| Text.RemoveFirstIs | jprov/archive/contract.go:127 | what is removed stood at the first place where the rest of the text begins with it; where there is no such place nothing is |
| Text.SplitTerminated | jprov/archive/contract.go:50-56 | splitting a stored list gives its elements and one empty element at the end |
| Text.SplitIs | jprov/archive/contract.go:55 | a text without the separator is one piece; otherwise the first piece ends at the first separator and what follows is split in turn |
| Text.TerminatedIs | jprov/archive/contract.go:86-92 | in a stored list each id is followed by a comma |
| Text.TerminatedInjective | jprov/archive/contract.go:86-92 | two lists of comma-free ids stored as the same string are the same list |
| Numerals.AtoiDecimal | jprov/utils/migrate.go:298-306 | a number written in decimal is read back as that number |
| Numerals.AtoiIs | jprov/utils/migrate.go:298-306 | what is read as a number: an optional sign, digits only, at least one, and a value between -2^63 and 2^63 - 1 |
| Numerals.ParseDigitsIs | jprov/utils/migrate.go:298-306 | digits are read from the left, each further one counting ten times what came before, and nothing else is read |
| Numerals.DecimalIs | jprov/utils/migrate.go:324-330 | the decimal form of a number is exactly the run of digits with that value that has no leading zero |
| Numerals.ShortestIs | jprov/utils/migrate.go:324-330 | so runs of digits without a leading zero and numbers correspond one to one |
| Numerals.DecimalInjective | jprov/utils/hash.go:74 | different indices have different decimal forms |
| Numerals.HexInjective | jprov/utils/hash.go:75 | different byte strings have different hexadecimal forms |
| Numerals.HexIs | jprov/utils/hash.go:75 | two lower-case characters for each byte, the high half first; decoded by character arithmetic they give the byte |
| ReferenceList.DeletionCutsSuffix | jprov/archive/contract.go:123-127 | the raw deletion cuts the end of the first element that ends in the id, with its comma |
| ReferenceList.DeletionRemovesElement | jprov/archive/contract.go:123-134 | the raw deletion yields the list without that element exactly if the first element ending in the id is the id or stands directly before it |
| ReferenceList.DeletionCanMergeElements | jprov/archive/contract.go:123-134 | an input of ids of different lengths for which the deletion merges two other ids |
| ReferenceList.DeletionExactForFixedLength | jprov/archive/contract.go:123-134 | for ids of one length the deletion always removes the intended element and no other |
| ContractIndex.DoubleRefArchiveDB.GetContracts | jprov/archive/contract.go:50-56 | the split list of a file, or the file-not-found error |
| ContractIndex.DoubleRefArchiveDB.SetContract | jprov/archive/contract.go:58-76 | refused without a change if the contract is there; otherwise the contract gets its file, and the id with a comma is appended to the list of the file, which may be new; SetRefines states what that means |
| ContractIndex.DoubleRefArchiveDB.AddReference | jprov/archive/contract.go:78-94 | the batch gets one write: the list of the file, empty if new, followed by the id and a comma |
| ContractIndex.DoubleRefArchiveDB.DeleteContract | jprov/archive/contract.go:96-106 | fails without a change if the contract or the list of its file is missing; otherwise the contract goes, and the first occurrence of its id with a comma is cut from that list, which goes if it becomes empty; DeleteRefines states what that means |
| ContractIndex.DoubleRefArchiveDB.DeleteReference | jprov/archive/contract.go:108-137 | fails exactly if a key is missing; otherwise the batch deletes the list if it becomes empty and rewrites it if not |
| ContractIndex.SetRefines | jprov/archive/contract.go:58-94 | on a store that encodes a list of links, insertion appends the link, or changes nothing and is refused if the contract has one |
| ContractIndex.DeleteRefines | jprov/archive/contract.go:96-137 | deletion takes out exactly the contract's link; it asks for a purge exactly if no link to the file is left |
| ContractIndex.StoredDeletionExact | jprov/archive/contract.go:118-134 | in a stored list the substring deletion always lands on an element boundary |
| ContractIndex.RunRefines | jprov/archive/contract.go:58-137 | after any sequence of insertions and deletions from an empty store, the raw database is exactly the encoding of the list of links kept in insertion order, and every answer was the one the links give |
| ContractIndex.LookupsAnswer | jprov/archive/contract.go:39-56 | on such a store a contract's lookup gives its link's file, and a file's lookup its contracts in order with one empty element after them |
| ContractIndex.DirectionsAgree | jprov/archive/contract.go:39-137 | a file has a list exactly if some contract maps to it, and the list names exactly the contracts that map to it |
| ContractIndex.KeyFormats | jprov/archive/contract.go:58-94 | every key of a reachable store is a contract id or a file id |
| ContractIndex.IdFormsAre | jprov/utils/id.go:5-11 | what counts as an id: the prefixes and the length as texts and numbers |
| ContractIndex.ContractsAre | jprov/server/proofs.go:386-394 | the contracts of a store are its entries whose key does not begin with "jklf", with the file stored for each |
| ContractIndex.SetOnContracts | jprov/archive/contract.go:58-76 | insertion adds one contract, refused exactly if it is there, and keeps the store consistent |
| ContractIndex.DeleteOnContracts | jprov/archive/contract.go:96-137 | deletion removes that contract only, and asks for a purge exactly if its file is no longer referenced |
| ContractIndex.DeleteOfFileKey | jprov/archive/contract.go:108-121 | deleting a file id instead of a contract id fails and changes nothing |
| DealState.ContractState | jprov/types/state.go:21-46 | only the chain's not-found code counts against a contract; a readable flag decides the other two outcomes and everything else is a query error |
| DealState.FlagTexts | jprov/types/state.go:37-45 | for every flag text: six spellings mean verified, six mean not verified, and every other text is a query error |
| DealState.FormattedFlags | jprov/types/state.go:37-45 | the text that the chain writes for a truth value is read back as that value |
| ShiftMachine.StepKeepsInv | jprov/server/proofs.go:290-428 | every single write keeps the invariant that a contract with misses is in the index, and bounds the misses |
| ShiftMachine.AlwaysInv | jprov/server/proofs.go:290-314 | in every reachable state, with stops between any two writes, every contract with misses is in the index and no counter is more than one over the limit |
| ShiftMachine.DowntimeCountsMisses | jprov/server/proofs.go:348-428 | a stored counter is the number of recorded not-found visits since the contract's last verified or unverified visit, upload, insertion or purge, where a reset between the reading and the writing of the counter does not count as one; failed queries never count |
| ShiftMachine.DowntimeSplits | jprov/server/proofs.go:348-357 | the counter is the recorded visits since anything cleared it, and those that survived an overwritten reset; a positive counter has one of the first kind |
| ShiftMachine.NoSurvivorsIffHarmless | jprov/server/proofs.go:349-354 | none survived if and only if each overwritten reset met a zero counter or was followed by something that cleared it for good |
| ShiftMachine.PurgedByOverwrite | jprov/server/file_server.go:177-183 | for every limit above zero, a run in which an upload resets the counter between its reading and its writing, and the contract is purged after one recorded visit |
| ShiftMachine.PurgedOnlyAfterMisses | jprov/server/proofs.go:326-343 | a contract is purged only if it had more than the allowed number of misses when the cleaning began, recent or surviving an overwritten reset, and at least one recent; it still has them when it is purged if and only if nothing cleared them in between (or the limit is negative) |
| ShiftMachine.PurgedAfterRecentMisses | jprov/server/proofs.go:326-343 | if all overwritten resets were harmless, only after more than the allowed number of recorded visits since anything cleared them |
| ShiftMachine.PurgedDespiteReset | jprov/server/file_server.go:177-183 | for every limit, a run in which an upload resets the counter after the cleaning took its snapshot, and the contract is purged without a miss |
| ShiftMachine.NeverAborts | jprov/server/proofs.go:326-343 | with a limit that is not negative, cleaning never stops on a missing contract |
| ShiftMachine.NegativeLimitAborts | jprov/server/proofs.go:326-343 | for every negative limit there is a run in which cleaning stops on a missing contract |
| ShiftMachine.AbortsOnlyWithNegativeLimit | jprov/server/proofs.go:316-346 | such a run exists if and only if the limit is negative |
| ShiftMachine.LastReferenceDropped | jprov/server/proofs.go:301-311 | when the purge is about to delete a directory, its file is referenced exactly if a reference was added since the last one was dropped |
| ShiftMachine.DeletedDirsAreUnreferenced | jprov/server/proofs.go:290-314 | pruning removes only unreferenced directories; the purge does too, unless another activity added a reference between its last two writes |
| ShiftMachine.ReferencedDirDeleted | jprov/server/proofs.go:301-311 | for every limit, a run in which such a reference is added and the directory is deleted |
| ShiftMachine.ForsakenVisits | jprov/server/proofs.go:385-437 | while a contract that is never found is there, at most (stops + 1) * (limit + 1) visits miss it, and at most that many visiting passes begin beyond those whose query for it failed |
| ShiftMachine.SurvivesStops | jprov/server/proofs.go:296-301 | both bounds are reached for every number of stops, by stops between a purge's first two writes |
| ShiftMachine.PurgedWithinLimit | jprov/server/proofs.go:316-357 | a contract that is never found is deleted, however often the process stops and queries fail, once more such visits or passes than that have occurred |
| ShiftMachine.PurgedByShift | jprov/server/proofs.go:430-437 | without a stop or a failed query it is deleted before the visits of pass limit + 2 begin |
| FileServer.DowntimeDB.Entries | jprov/archive/contract.go:163-165 | an iteration returns every entry once |
| FileServer.FileServer.Purge | jprov/server/proofs.go:290-314 | removes the counter, then the contract, then the directory exactly if no other contract names its file, each write being that step of the machine; every other contract keeps its file; fails without a change on anything but a contract |
| FileServer.FileServer.DropDowntimeEntry | jprov/server/proofs.go:296-299 | the counter is gone, and the stored data is the machine's state after its first purging step |
| FileServer.FileServer.DropContractEntry | jprov/server/proofs.go:301-304 | the contract is gone, and the stored data is the machine's state after its second purging step; reports the last reference exactly |
| FileServer.FileServer.DeleteDirectory | jprov/server/proofs.go:306-311 | the directory is gone, and the stored data is the machine's state after its last purging step |
| FileServer.FileServer.CleanExpired | jprov/server/proofs.go:316-346 | a contract and its counter go exactly if the counter is over the limit, and a directory exactly if contracts named it and none does now; all others keep their file and their counter; fails only with a negative limit, having purged some of them and changed nothing else |
| FileServer.FileServer.CleanEntries | jprov/server/proofs.go:326-343 | the loop over the entries, stopping at the first that cannot be purged |
| FileServer.PurgedPlainly | jprov/server/proofs.go:290-314 | what a purge of one contract means for the entries of the raw store and the directories |
| FileServer.CleanedPlainly | jprov/server/proofs.go:316-346 | what a clean pass means for the entries of the raw store, the directories and the counters |
| FileServer.FileServer.DowntimeIterator | jprov/server/proofs.go:323-331 | the pass goes through every counter once |
| FileServer.FileServer.CleanEntry | jprov/server/proofs.go:326-343 | purges the entry if it is over the limit, fails exactly if it has no contract then, and otherwise leaves everything |
| FileServer.FileServer.IncrementDowntime | jprov/server/proofs.go:348-357 | the counter is read and then written as two steps of the machine; undisturbed, it is one more, starting from none, and no other changes |
| FileServer.FileServer.ReadEntry | jprov/server/proofs.go:349-352 | the value read is the stored one, and the machine holds it until the write |
| FileServer.FileServer.WriteEntry | jprov/server/proofs.go:354 | the counter becomes one more than was read, whatever it is by then |
| FileServer.FileServer.DeleteDowntime | jprov/server/proofs.go:359-369 | the contract's counter is gone; no other changes |
| FileServer.FileServer.HandleContracts | jprov/server/proofs.go:385-428 | every indexed contract is visited once and its own reply alone decides: the not-found code adds one to its counter, a flag text that says yes or no, such as "true" and "false", removes the counter, and any other reply leaves it; counters of other ids stay |
| FileServer.VisitedMeans | jprov/server/proofs.go:397-425 | what the visits make of each counter, in terms of the reply and its flag text |
| FileServer.FileServer.ArchiveIterator | jprov/server/proofs.go:386-394 | the pass goes through every key once; the visits are to the contract keys |
| FileServer.FileServer.VisitContract | jprov/server/proofs.go:397-425 | one visit is the machine's reading and writing after not-found, and one step of it otherwise |
| FileServer.FileServer.VisitKey | jprov/server/proofs.go:389-426 | a reference list is skipped, and a contract visited |
| FileServer.FileServer.StartShift | jprov/server/proofs.go:430-437 | a shift deletes exactly the contracts over the limit, and the directories that only they named; then a not-found code adds one to the counter of a remaining contract, a flag text that says yes or no removes it, and any other reply leaves it; a failed shift has purged some contracts over the limit and changed nothing else |
| FileServer.FileServer.SaveToDatabase | jprov/server/file_server.go:177-183 | an upload sets the counter to zero, then inserts the contract with its file, each write being that step of the machine; refused exactly if the contract is there; every other contract and counter stays |
| FileServer.FileServer.ResetEntry | jprov/server/file_server.go:178-181 | the counter is zero, and the stored data is the machine's state after an upload's first step |
| FileServer.FileServer.FinishEntry | jprov/server/file_server.go:182 | the contract is inserted or refused, and the stored data is the machine's state after an upload's second step |
| FileServer.FileServer.RecollectActiveDeals | jprov/server/file_server.go:263-277 | fails without a change exactly if the first request for deals fails; otherwise, for deals of ours with well-formed ids, a contract id is held afterwards exactly if it was before or one of our deals on any page names it, old ones keep their file and each new one has the file of the first of our deals that names it |
| FileServer.InsertedOwnDeals | jprov/server/file_server.go:263-277 | what inserting our listed deals means for the entries of the raw store, deal by deal |
| FileServer.FileServer.InsertAll | jprov/server/file_server.go:269-274 | the insertion loop, for any list of deals |
| FileServer.FileServer.PruneExpiredFiles | jprov/server/prune.go:43-80 | exactly the directories that the index references remain; the old tree files of the others are gone and the count is right |
| FileServer.OrphanedGrows | jprov/server/proofs.go:301-311 | deleting directories one purge at a time deletes exactly those orphaned by all the purges together |
| FileServer.CleanPassPurges | jprov/server/proofs.go:326-345 | going through the entries one by one purges exactly the contracts over the limit |
| FileServer.CleanPassPartial | jprov/server/proofs.go:326-343 | stopping at any entry has purged some of them |
| FileServer.VisitPassEntries | jprov/server/proofs.go:389-426 | each contract visited so far had its counter changed once, by its own reply |
| FileServer.VisitPassVisits | jprov/server/proofs.go:385-428 | a whole pass changes the counter of every indexed contract by its reply and nothing else |
| FileServer.Unlisted | jprov/server/prune.go:65-72 | a directory whose name the index does not hold is not referenced |
| FileServer.KeptByName | jprov/server/prune.go:58-80 | looking names up as keys keeps exactly the referenced directories |
| Recollection.RecollectedContracts | jprov/server/file_server.go:263-277 | a contract is held afterwards exactly if it was before or a deal names it; old contracts keep their file, new ones have the file of their first deal |
| Recollection.ReferencedAfterRecollection | jprov/server/file_server.go:263-277 | a file is referenced afterwards exactly if it was, or a deal with a free contract id brought it in |
| Recollection.LiveDealsKept | jprov/server/prune.go:58-80 | after recollection and pruning no directory of a live deal is removed if index and chain agree; in general exactly the unreferenced ones are |
| Recollection.DisagreementLosesDeal | jprov/server/file_server.go:269-273 | an index that names another file for a contract loses that live deal's directory |
| Recollection.PairIdempotent | jprov/server/prune.go:58-80 | doing both again changes nothing |
| Recollection.OwnDealsKept | jprov/server/file_server.go:263-277 | for what the chain lists on all pages, no directory of one of this provider's deals is removed by recollection and pruning if index and chain agree on them; in general exactly the unreferenced ones are |
| Recollection.RecollectedOwnDeals | jprov/server/file_server.go:263-277 | after our listed deals are inserted each contract id has what it had, or the file of the first of our deals with that id, or nothing if there is none |
| ActiveDeals.OfProviderConcat | jprov/server/query.go:88-110 | filtering page by page is filtering the concatenation |
| ActiveDeals.OfProviderCounts | jprov/server/query.go:115-128 | the filter keeps each of our deals as often as it was listed, and no other |
| ActiveDeals.QueryClient.ActiveDealsAll | jprov/server/query.go:60-65 | a request gives its page and whether another follows, or fails as the script of outcomes says |
| ActiveDeals.DealQueries.QueryOnlyMyActiveDeals | jprov/server/query.go:76-113 | fails exactly if the first request fails; otherwise our deals on all pages, in order, whatever follow-up requests failed |
| ActiveDeals.DealQueries.QueryAllActiveDeals | jprov/server/query.go:47-74 | succeeds exactly if no page's request fails; returns, also beside an error, the pages before the first failure in order |
| ActiveDeals.DealQueries.QueryMyActiveDeals | jprov/server/query.go:130-137 | when it succeeds it returns what QueryOnlyMyActiveDeals returns |
| ActiveDeals.DealQueries.AppendMine | jprov/server/query.go:115-128 | the loop appends our deals of a page, in order |
| Batching.FitLongest | jprov/queue/queue.go:49-59 | a prefix of the queue is within the limit exactly if it is no longer than the batch taken |
| Batching.GreedyOptimal | jprov/queue/queue.go:44-62 | if any order-preserving split into k batches within the limit exists, k rounds empty the queue |
| Batching.GreedySplits | jprov/queue/queue.go:111-120 | the rounds themselves are such a split: batches within the limit that concatenate to the queue |
| Batching.BatchesAreFull | jprov/queue/queue.go:44-62 | when k rounds are needed, (k / 2) * (limit + 1) is at most the total size |
| Batching.FitPositive | jprov/queue/queue.go:45-55 | a round takes something exactly if the oldest message fits |
| Batching.DrainsByRound | jprov/queue/queue.go:44-62 | if all messages fit, every round on a non-empty queue shortens it |
| Batching.NeverPassesOversize | jprov/queue/queue.go:53-54 | nothing at or behind a message over the limit is ever taken |
| Batching.DrainsExactlyIfAllFit | jprov/queue/queue.go:44-62 | some number of rounds empties the queue if and only if all messages fit |
| Batching.AnsweredWithin | jprov/queue/queue.go:91-121 | an upload behind p others that all fit is popped within p + 1 rounds, whatever is appended meanwhile |
| QueueMachine.StepKeepsInv | jprov/queue/queue.go:91-121 | every phase step and every arrival keeps order and callbacks in step |
| QueueMachine.AlwaysInv | jprov/queue/queue.go:65-121 | between any two steps of any interleaving, popped and queued uploads are the arrivals in order and the callbacks are those of the transactions sent |
| QueueMachine.AnsweredExactlyOnceInOrder | jprov/queue/queue.go:65-121 | a popped upload has had exactly one callback, a queued one none outside the window between answer and pop; each callback carries the outcome of a transaction with that upload's message, and no upload is in two transactions |
| QueueMachine.RoundEffect | jprov/queue/queue.go:91-121 | one call of the listener answers and pops the n oldest uploads, as UploadQueue.ListenOnce does, whatever arrives during it |
| UploadQueue.UploadQueue.Append | jprov/queue/queue.go:29-37 | appended unless an upload with the same message is queued |
| UploadQueue.UploadQueue.PrepareMessage | jprov/queue/queue.go:39-62 | the messages of the first uploads in order, the longest prefix within the limit; their printed forms together have at most as many characters as the limit, and with the next message they would have more; none if unlocked or the limit is too small |
| UploadQueue.SizesArePrinted | jprov/queue/queue.go:51-57 | the sum that is compared with the limit is the length of the printed messages one after the other |
| UploadQueue.FitIsFull | jprov/queue/queue.go:49-59 | the batch taken is within the limit, and with one more message it is not |
| UploadQueue.UploadQueue.UpdateQueue | jprov/queue/queue.go:64-89 | exactly the first count uploads get one callback and the error, or the log of an answer with another code than 0 as their error, or the answer with code 0 as their response, the other fields staying; nothing happens if unlocked or too short |
| UploadQueue.UploadQueue.ListenOnce | jprov/queue/queue.go:91-121 | exactly the uploads whose messages were sent are answered and popped, although others are appended in the meantime; the i-th message sent is that of the i-th upload popped, the texts sent are within the limit and with the next one would not be; a locked queue is left alone and the lock is released |
| Chunking.CreateMerkleTree | jprov/utils/hash.go:50-95 | the leaf array has one slot more than whole blocks fit in the size; slot i is empty from the size on, and otherwise holds the hash of the text for i and the bytes from i blocks on, at most a block of them; the position in the file is as before |
| Chunking.FormatIntIs | jprov/utils/hash.go:74 | the text of a number: a sign exactly if it is negative, and its digits without a leading zero |
| Chunking.LeafTextNumber | jprov/utils/hash.go:72-75 | the text hashed into leaf i begins with i's digits without a leading zero, and what follows is twice as long as the block |
| Chunking.LeafTextByte | jprov/utils/hash.go:72-75 | what follows is each byte of the block in order, as two lower-case hexadecimal digits |
| Chunking.LeafTextInjective | jprov/utils/hash.go:73-75 | at one index, equal hash inputs mean equal blocks |
| Chunking.LeafAt | jprov/utils/hash.go:63-85 | the leaf at a block's index is the hash of that index and block |
| Chunking.ExtraSlot | jprov/utils/hash.go:60-63 | every slot but the last holds a leaf, and the last is empty exactly if the file is a number of whole blocks |
| Chunking.LeavesDetermineContent | jprov/utils/hash.go:60-86 | for a fixed block size and an injective hash, files of any sizes with equal leaf arrays are equal |
| Chunking.EqualLeavesOnlyAtShortEnd | jprov/utils/hash.go:73-75 | two blocks of a file have the same hash input only if the later is a short last block, by exactly the missing digits |
| Chunking.SameLeafTextIffSpelled | jprov/utils/hash.go:73-75 | they have the same hash input if and only if the earlier block's hexadecimal form is the rest of the later one's index followed by the later block |
| Chunking.WholeBlocksNotSpelled | jprov/utils/hash.go:73-75 | that never happens for a later block of full size |
| Chunking.LeafSharedAtShortEnd | jprov/utils/hash.go:73-75 | a file in which block 1 and the short last block do have the same hash input |
| Chunking.BlocksConcatenate | jprov/utils/hash.go:63-66 | the blocks in order are the file |
| Archive.PieceIsBlock | jprov/archive/archive.go:222-240 | reading a piece of a stored file gives the block at that index |
| Archive.SinglePieceIs | jprov/archive/archive.go:222-240 | a piece is the bytes from index times the size on, at most that many; which error comes without a file, before its start and past its end |
| Archive.HybridPieceIs | jprov/archive/archive.go:87-116 | a piece that has its own block file is a full block, padded with zeros, and an error if the file is empty; any other piece is that of the single file |
| Archive.HybridTreeIs | jprov/archive/archive.go:162-177 | the tree at the root comes before the one in the directory |
| Archive.StoredPieceMatchesLeaf | jprov/server/proofs.go:47-81 | each existing piece hashes to the leaf stored at its index, so a proof can be made for it; with an injective hash the proof is for that very leaf if and only if no earlier block spells the piece out, which holds for every piece of full size; past the end the read fails |
| Archive.PieceExists | jprov/archive/archive.go:231-239 | a piece can be read exactly if its index is below the number of blocks |
| Archive.PiecesConcatenate | jprov/archive/archive.go:222-240 | the pieces that can be read, in order, are the file |
| Archive.WrittenPiecesMatch | jprov/archive/archive.go:203-220 | after data is written, every piece of it is read back and hashes to the leaf made from it if and only if the file there before was not longer or the data is a number of whole blocks |
| Archive.AfterWriteIs | jprov/archive/archive.go:203-220 | writing changes the one file and no other file, directory or tree; the data comes first, and what the old file had beyond it stays |
| MigrationMachine.BlockNameCodec | jprov/utils/migrate.go:298-330 | the name of block i is recognised as a block name and read back as i |
| MigrationMachine.BlockNameInjective | jprov/utils/migrate.go:324-330 | different blocks have different names |
| MigrationMachine.IsBlockNameIs | jprov/utils/migrate.go:298-306 | the names taken for those of blocks are a number, as it is read, and ".jkl" |
| MigrationMachine.DataNames | jprov/utils/migrate.go:298-306 | the glued file's name is taken for a block's exactly if the directory's name is a number, the tree's never |
| MigrationMachine.CorruptedNotNumeric | jprov/utils/migrate.go:120-123 | "corrupted-" and any text after it is not read as a number |
| MigrationMachine.StepKeeps | jprov/utils/migrate.go:104-206 | every single operation, or a stop, keeps a directory's blocks or a glued file that matches its tree, under its name or the marked one |
| MigrationMachine.NoDataLost | jprov/utils/migrate.go:104-206 | after any history of runs, stops inside any copy and reruns, every directory still has all its original blocks, or a glued file whose root is that of its stored tree |
| MigrationMachine.WholeStaysWhole | jprov/utils/migrate.go:104-206 | throughout any history a directory that is already in the new layout, with a glued file matching its tree, keeps its name, file and tree |
| MigrationMachine.CleaningSparesGlued | jprov/utils/migrate.go:191-206 | cleaning leaves a checked glued file intact if and only if the directory's name is not a number |
| MigrationReads.RootsDetermineFiles | jprov/utils/migrate.go:42-66 | with injective hash and tree, equal roots mean equal files, so the integrity check is sound |
| MigrationReads.AlwaysStable | jprov/utils/migrate.go:104-206 | throughout any history a missing block means the glued file is complete, and the tree can be read |
| MigrationReads.ReadsAreStable | jprov/archive/archive.go:87-177 | pieces of full-size blocks, and the tree, read the same before, during and after migration |
| MigrationReads.ShortLastBlockReadsDiffer | jprov/archive/archive.go:76-85 | the last block reads the same before and after if and only if it has full size |
| MigrationReads.UninterruptedStaysOnCourse | jprov/utils/migrate.go:172-189 | without a stop, the glued file is at every point the part of the blocks copied so far, and is whole when it is checked |
| MigrationReads.RenamedExactly | jprov/utils/migrate.go:120-136 | a step takes an intact directory's name away if and only if it is a check that finds a glued file other than the whole one, the new name being free; and only after a stop |
| MigrationReads.StoppedGluingIsRenamed | jprov/utils/migrate.go:104-136 | a stop right after the glued file was created, and a rerun, do so |
| Collections.Keys | jprov/utils/migrate.go:262 | a listing has every name once, in some order |
| Collections.FlattenIs | jprov/utils/migrate.go:248-254 | flattening lists is appending them in order |
| Migration.Migrator.GetBlockFileNames | jprov/utils/migrate.go:259-280 | lists exactly the block names; fails exactly if the directory is missing or holds a directory |
| Migration.Migrator.Combine | jprov/utils/migrate.go:282-294 | appends the block to the glued file; fails without a change exactly if the block is missing |
| Migration.Migrator.GlueBlocks | jprov/utils/migrate.go:236-257 | the glued file is the blocks in the order of their numbers up to the first missing one; succeeds exactly if none is missing |
| Migration.Migrator.HandleGlueing | jprov/utils/migrate.go:104-118 | glues unless there is a glued file, ignoring failures |
| Migration.Migrator.HandleTree | jprov/utils/migrate.go:151-170 | moves the old tree to its new place if there is one |
| Migration.Migrator.HandleCheck | jprov/utils/migrate.go:125-149 | a passed check is followed by cleaning, a failed one by marking the directory |
| Migration.Migrator.CleanOld | jprov/utils/migrate.go:191-206 | exactly the files with block names are removed; fails exactly if the directory holds a directory |
| Migration.Migrator.Migrate | jprov/utils/migrate.go:172-189 | every directory is migrated once, in the order listed, by steps of the machine; each that has, for every i below the number of blocks, the file named by the digits of i without a leading zero, no other block name, and a tree of the right root, ends up with the concatenated file and the tree and no block name |
| Migration.NotItsOwnBlockIff | jprov/utils/migrate.go:324-330 | the glued file's name is that of a block if and only if the directory's name is the decimal form of a number |
| Migration.NamesAreNotNumbers | jprov/utils/id.go:5-7 | it is not for any name that does not begin with a digit, as file ids do not |
| Migration.GluesExactlyIfNumbered | jprov/utils/migrate.go:225-257 | gluing finds every block if and only if the block names are exactly those of 0 to n-1 |
| Migration.GluesExactlyIfShortest | jprov/utils/migrate.go:225-257 | gluing finds every block if and only if the block names are those of a run of digits without a leading zero, below their count, before ".jkl" |
| Migration.AllBlocksIs | jprov/utils/migrate.go:248-254 | it looks for the file of each such number below the count |
| Migration.GlueFromIs | jprov/utils/migrate.go:248-254 | gluing appends the file named by the digits of i and goes on with i + 1, up to the count or the first missing file |
| Migration.GluedInNumberOrder | jprov/utils/migrate.go:248-254 | for such names, in any listing order, the glued file is the concatenation in numeric order |
| Migration.AfterGlueIs | jprov/utils/migrate.go:104-118 | gluing adds <fid>.jkl to a directory without it and changes nothing else |
| Migration.MoveTreeIs | jprov/utils/migrate.go:151-170 | the tree <fid>.tree is moved from the root into the directory |
| Migration.AfterCheckIs | jprov/utils/migrate.go:125-149 | a directory whose file and tree have one root loses the files with block names; any other gets "corrupted-" in front of its name, unless that name is taken |
| Migration.MigrateAllIs | jprov/utils/migrate.go:172-189 | a migration takes each directory in turn through gluing, moving the tree and the check |
| Migration.GluedDirectoryPasses | jprov/utils/migrate.go:42-80 | an intact directory, glued and with its tree moved, passes the check |
| Migration.GluedPiecesAreBlocks | jprov/archive/archive.go:222-240 | piece i of the glued file is block i, the short last one included |
| Migration.MigratesWholeDirectory | jprov/utils/migrate.go:172-206 | migrating an intact directory leaves the whole glued file, the tree, and no block |
| Migration.MigratedPieces | jprov/archive/archive.go:222-240 | every piece of a migrated file is the old block |
| Migration.MigrateOneFrame | jprov/utils/migrate.go:179-185 | migrating one directory leaves every other, and its tree, alone |
| Migration.MigratesEveryDirectory | jprov/utils/migrate.go:172-189 | a migration completes every intact directory listed, in whatever order and beside whatever others |
| Migration.MigratesInPlace | jprov/utils/migrate.go:172-189 | the same in terms of names and bytes: an intact directory ends up with <fid>.jkl holding its blocks in numeric order, <fid>.tree, and no file named by a number |
| HandMachine.StepKeepsInv | jprov/strays/hand_process.go:69-140 | every step of any process or of the manager keeps the hands consistent and every contract covered by a claim of its own |
| HandMachine.StrayLeavesWithItsProcess | jprov/strays/hand_process.go:80-84 | a stray leaves its hand only when the process that entered with it releases it |
| HandMachine.HandsConsistent | jprov/strays/hand_process.go:69-140 | in every interleaving a hand runs at most one process, whose stray stays until its release, no step finds its stray gone, and every contract recorded has a claim of its own by that hand, made after the hand had downloaded the file or found one on disk, even if files are removed meanwhile |
| HandMachine.HeldUntilReleased | jprov/strays/stray_manager.go:129-149 | a stray given to a hand, even between the two writes of a release, stays until a process releases it |
| Strays.DealtInOrder | jprov/strays/stray_manager.go:129-149 | the k-th idle hand gets the k-th stray, occupied hands keep theirs, and the rest of the pile keeps its order |
| Strays.DealtPlainly | jprov/strays/stray_manager.go:129-149 | a hand without a stray gets the stray whose place in the pile is the number of such hands before it; the pile loses as many from its front as were dealt |
| Strays.DealtConserves | jprov/strays/stray_manager.go:129-149 | pile and hands together hold the same strays, each as often, before and after |
| Strays.AssignsDeal | jprov/strays/stray_manager.go:129-149 | the machine's assignments, taken without interruption, deal the pile as Distribute does |
| Strays.ProcessStepsEffect | jprov/strays/hand_process.go:69-140 | the machine's steps of one uninterrupted process do what Process does |
| Strays.UnindexedExactly | jprov/strays/stray_manager.go:213-222 | the collected pile has each stray whose file is unknown as often as it was listed, and no other |
| Strays.UnindexedConcat | jprov/strays/stray_manager.go:213-222 | the pile keeps the order in which the strays were listed |
| Strays.StoredFiles.FileExist | jprov/archive/archive.go:247-250 | true exactly if the file is absent, the opposite of its name |
| Strays.LittleHand.FetchFrom | jprov/strays/hand_process.go:107-119 | a file is found exactly if some listed provider gives it whole; one is left on disk exactly if some download leaves a file, whole or not |
| Strays.LittleHand.Process | jprov/strays/hand_process.go:69-140 | an idle or busy hand does nothing; otherwise the hand ends free, and the contract and its file, with the comma-terminated id in the list, are recorded exactly after a claim that succeeded, made exactly if the file is on disk with nobody listed, or was fetched from others |
| Strays.StrayManager.CollectStrays | jprov/strays/stray_manager.go:180-225 | the pile becomes the listed strays whose file the index does not hold, and the chain's count is returned; an error or an empty reply leaves the pile and gives zero |
| Strays.StrayManager.Distribute | jprov/strays/stray_manager.go:129-149 | each hand that holds nothing gets the stray whose place in the pile is the number of such hands before it, if the pile is that long; occupied hands keep theirs, the rest of the pile keeps its order, and no busy flag changes |
| Strays.StrayManager.DealOut | jprov/strays/stray_manager.go:129-149 | its loop, which deals as the machine's assignments do |

## Left out

- FileServer.FileServer.Purge: does not model that the directory's removal can fail; disk and database errors are left out everywhere, except that the process may stop between any two writes.
- FileServer.FileServer.IncrementDowntime: does not model the 64-bit wrap-around, which cannot be reached, since ShiftMachine.AlwaysInv bounds every counter by the limit plus one. Its contract is for a call that nothing disturbs; the machine has the other steps in between.
- FileServer.FileServer.HandleContracts: does not model posting the proof for an unverified contract (jprov/server/proofs.go:96-288, 375-383), only its effect on the counter.
- FileServer.FileServer.PruneExpiredFiles: does not model directories other than by name; it also removes directories that migration marked as corrupted, because their names are not keys.
- FileServer.FileServer.RecollectActiveDeals: for ids that are not in the formats of jprov/utils/id.go:5-11 only the raw store is described.
- FileServer.FileServer.SaveToDatabase: requires ids in those formats, which are made by the same code and by the chain.
- FileServer.FileServer.VisitContract: does not model posting the proof, as HandleContracts.
- DealState.ContractState: a nil reply without an error, on which the code (jprov/types/state.go:37) would stop the program, is not among the model's replies; QueryContractState (jprov/server/query.go:20-45) has no part in the machine.
- Chunking.CreateMerkleTree: returns the leaves; the tree that the library builds from them is left out.
- ActiveDeals.DealQueries.QueryOnlyMyActiveDeals: terminates because only finitely many requests fail; the code waits and retries without end. The pages are those of one chain height.
- Archive.StoredPieceMatchesLeaf: does not model the tree library's padding, proofs and their verification, only which leaf the proof is for; the leaves are those of the file on disk, and WrittenPiecesMatch says when they are those of the data written. A tree file written over a longer one is left out.
- MigrationMachine.NoDataLost: is for directories whose name is not a number, as all file ids are; CleaningSparesGlued says exactly what fails for the others. In a directory marked as corrupted, a glued file counts only under the new name.
- Migration.Migrator.GlueBlocks: requires that the glued file does not have the name of a block, as it has in a directory named by a plain number; the code would then copy the file onto itself, possibly without end.
- Migration.Migrator.HandleGlueing: requires the same.
- Migration.Migrator.Combine: requires the same of the block at hand.
- Migration.Migrator.Migrate: requires the same of every directory. Directories marked as corrupted are listed again by a rerun, fail the check again and get a second mark, as in the code.
- Migration.Migrator.HandleCheck: models that Go's os.Rename refuses to rename a directory onto any existing one, empty or not.
- MigrationReads.ReadsAreStable: is for full-size blocks; a legacy short last block is padded with zeros by the code, and ShortLastBlockReadsDiffer says exactly when that shows.
- UploadQueue.UploadQueue.ListenOnce: takes the transaction's outcome and the uploads appended meanwhile as parameters; appends that bypass Append (jprov/server/file_server.go:242) are among them. Data races inside one append or pop are left out.
- Strays.LittleHand.Process: takes the listed providers, the downloads' outcomes and the claim's outcome as parameters; interleavings of a process with others are in HandMachine.
- Strays.StrayManager.CollectStrays: does not model the random offset and order of the request and the shuffling; the reply is the shuffled list.
- ContractIndex.DoubleRefArchiveDB.GetContracts: maps every read error to not-found (jprov/archive/contract.go:50-54) in the code; reads always succeed here, which the pruning properties need.
- Transactions, signing, gas, attestations, reports, HTTP routes, commands, configuration, logging and key files: calls into libraries and the network.
- The IPFS archive, LastPiece (jprov/archive/path_factory.go:78-101) and GetBlock (jprov/utils/hash.go:99-125): no caller in the modelled paths.
- Byte codecs, path joins and other one-branch helpers: each is a single expression with nothing to prove beyond it.
