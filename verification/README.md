# IQRF Gateway Daemon: models and proofs

A Dafny 4.11 model of the parts of the IQRF Gateway Daemon in which bytes are attributed by position, in which tables
are brought in line with a network, and in which several steps or threads must keep an invariant. Every module states
what the code computes and proves it for all inputs, all runs or all interleavings. `dafny verify dfyconfig.toml`
checks the whole project.

| file | part of the daemon |
|---|---|
| `Common.dfy` | machine integers, optional values, ordered sets |
| `Crc.dfy` | the CRC-CCITT table against polynomial division (generator x^16+x^12+x^5+1, zero start value, section 2 of ITU-T Recommendation V.41) |
| `IdeFrame.dfy` | frames exchanged with the IDE: accepted frames, error detection |
| `Radio.dfy`, `Enumeration.dfy` | the mesh as the coordinator shows it, and network enumeration by polling and by batched memory reads |
| `Eeeprom.dfy` | chunked reads of the coordinator's external memory |
| `Reconcile.dfy`, `Standards.dfy` | reconciliation of the device database with the network, and the standard enumeration that may follow |
| `SensorEnum.dfy` | sensor table of one device |
| `CacheHandshake.dfy`, `CacheReload.dfy` | the repository cache: threads, and the reload of its eight tables |
| `Backup.dfy` | the backup container, written by one service and read by another |
| `JsContext.dfy`, `DukStack.dfy` | driver contexts by product and address, and the value stack of the script engine |
| `DriverFallback.dfy` | provisional drivers for the coordinator |
| `SensorFrc.dfy`, `SensorRound.dfy`, `Rssi.dfy` | merging and attributing sensor answers, one round of readings, and signal strengths of beaming devices |
| `Tokens.dfy` | life cycle of API tokens |

Where the code does not do what it evidently means to do, the model follows the code. A lemma then gives a concrete
input, and another one says for all inputs when the code meets its purpose:

- Ids of devices to delete lose all but eight bits (`Reconcile.WrongDeviceDeleted`). `Reconcile.StaleGoneIff` says when
  every stale row goes, `Reconcile.LiveKeptIff` when no other row does.
- The filter of the batched enumeration does not advance at address 0 (`Enumeration.FilterLoopExample`,
  `Enumeration.FilterLoopEndsIff`); its caller takes that address out first.
- The index of a sensor among those of its type counts only inserted rows (`SensorEnum.RankLostExample`,
  `SensorEnum.RankIff`), and its counters do not cover the last type (`SensorEnum.UncountableExample`,
  `SensorEnum.CountableIff`).
- The query for the drivers of all products reads the product's id in place of the driver's
  (`src/DbEntities/repositories/product_driver_repo.hpp:168`), so a product can keep outdated drivers
  (`JsContext.StaleProductKept`, `JsContext.StoredDriversLoadedIff`) and most products are loaded again on every call
  (`JsContext.ChosenAgainExample`, `JsContext.ChosenAgainIff`).
- A failed load leaves addresses mapped to a dropped context (`JsContext.DanglingExample`,
  `JsContext.LiveAfterReloadIff`).
- Without a period, an invocation of the cache thread can lose its wake-up (`CacheHandshake.LostWakeUpExample`,
  `CacheHandshake.LostWakeUpIff`). Overlapping invocations can be lost or return too early even with a period
  (`CacheHandshake.OverlappingInvocationLost`, `CacheHandshake.OverlappingInvocationUnfinished`). Every invocation is
  answered exactly with a period and one invoker at a time (`CacheHandshake.AnsweredIff`), and all runs return final
  statuses exactly for one invoker at a time (`CacheHandshake.FinalStatusesIff`).
- The standard enumeration selects every device not yet enumerated, but knows the products of this round's nodes only
  (`Standards.SkippedStandardsExample`). `Standards.ServedIff` says when it knows them all.
- The block count of a backup wraps at 256 blocks, and such a container is refused (`Backup.WrappedExample`,
  `Backup.ContainerAcceptedIff`).
- Non-selective sensor answers are attributed one address too low (`SensorFrc.UnselectedExample`,
  `SensorFrc.UnselectedOneTooLow`, `SensorFrc.UnselectedRightIff`), and values of a selective answer are stored under
  slot numbers (`SensorFrc.WrongAddressExample`, `SensorFrc.StoredUnderOwnAddressIff`,
  `SensorFrc.EveryAnswerLandsIff`).
- The extra result is not fetched for exactly 55, 27 or 13 devices, which loses the last one's bytes
  (`SensorRound.LastSlotMissedExample`, `SensorRound.SlotReceivedIff`). A memory read of 55 or more devices takes bytes
  from beyond the first answer (`SensorRound.ForeignByteExample`, `SensorRound.MemoryReadRightIff`).
- Signal strengths are asked from the whole set of nodes for every piece of it, so nodes after the 63rd are never heard
  (`Rssi.LastNodeUnheardExample`, `Rssi.CompleteIff`) and the others are asked repeatedly (`Rssi.AskedOncePerPiece`).
- Storing readings stops at the first unregistered address (`SensorRound.DroppedExample`,
  `SensorRound.StoredWholeIff`), and a sensor stored in several rows can be read several times
  (`SensorRound.ReadTwiceExample`, `SensorRound.ExactlyOneReadingIff`).
- Revoking or rotating an overdue token reports it expired without storing that (`Tokens.ExpiredReportNotSticky`,
  `Tokens.ExpiredReportStickyIff`).

## Model

| member | source | states |
|---|---|---|
| `CrcSpec.ShiftDivides` | src/IdeCounterpart/crc.h:84-106 | clocking the register over a message leaves the remainder of dividing the register's polynomial followed by the message |
| `CrcSpec.ShiftIsRemainder` | src/IdeCounterpart/crc.h:61-73 | from a zero register, the register after a message is the remainder of the message times x^16 |
| `CrcSpec.ShiftLinear` | src/IdeCounterpart/crc.h:29-43 | clocking is linear: the register of a sum is the sum of the registers |
| `CrcSpec.ByteStep` | src/IdeCounterpart/crc.h:29-43 | eight clocks are one lookup of the high byte plus the shifted low byte |
| `CrcSpec.ShiftInjective` | src/IdeCounterpart/crc.h:61-73 | on one message, different registers stay different |
| `CrcSpec.ResidueZeroIff` | src/IdeCounterpart/crc.h:61-73 | a word shifted into the register leaves zero exactly when it is the register |
| `CrcSpec.BurstChangesRegister` | src/IdeCounterpart/crc.h:61-73 | messages that differ only within sixteen adjacent bits end in different registers |
| `Crc.FrameDivisibleIff` | src/IdeCounterpart/crc.h:61-73 | a message and two bytes are divisible by the generator exactly when the bytes spell the message's CRC, high byte first |
| `Crc.BurstChangesRemainder` | src/IdeCounterpart/crc.h:61-73 | different messages that agree outside a burst of sixteen bits have different CRCs |
| `Crc.WordOfBytes` | src/IdeCounterpart/IdeCounterpart.cpp:155-180 | comparing a CRC as a number is comparing its two bytes |
| `Crc.Calculator.constructor` | src/IdeCounterpart/crc.h:84-106 | row i of the table is the register that the bits of i leave |
| `Crc.Calculator.Row` | src/IdeCounterpart/crc.h:84-106 | the inner loop shifts the index out bit by bit into that register |
| `Crc.Calculator.UpdateCrc` | src/IdeCounterpart/crc.h:29-43 | one byte through the table is eight clocks of the bit-by-bit register |
| `Crc.Calculator.GetCrc` | src/IdeCounterpart/crc.h:61-73 | the table-driven CRC of any bytes is the remainder of polynomial division |
| `IdeFrame.FrameDivisible` | src/IdeCounterpart/crc.h:61-73 | every frame closed with its CRC has residue zero |
| `IdeFrame.BurstRejected` | src/IdeCounterpart/IdeCounterpart.cpp:155-180 | no burst of at most sixteen bits turns an accepted frame into an accepted one, for any gateway address |
| `IdeFrame.AdjacentBytesRejected` | src/IdeCounterpart/IdeCounterpart.cpp:155-180 | one changed byte, or two adjacent ones, are always rejected |
| `IdeFrame.Decompose` | src/IdeCounterpart/IdeCounterpart.cpp:155-180 | with matching address and length, a message is a frame exactly when its last two bytes are the CRC of the rest |
| `IdeFrame.FormatInNumbers` | src/IdeCounterpart/IdeCounterpart.cpp:155-175 | 11 to 508 bytes, the data length in the eighth and ninth, high byte first |
| `IdeFrame.IdeCounterpart.ValidateMsg` | src/IdeCounterpart/IdeCounterpart.cpp:155-180 | accepts exactly header, data of the declared length and CRC for its own address; each refusal is given exactly when its check is the first to fail |
| `IdeFrame.IdeCounterpart.ReceivedData` | src/IdeCounterpart/IdeCounterpart.cpp:95-112 | hands on command and data of the one frame a message can be |
| `IdeFrame.IdeCounterpart.SendTrData` | src/IdeCounterpart/Commands/SendTrData.h:48-65 | a packed message is acceptable exactly when its data fits 497 bytes |
| `IdeFrame.TrHeaderBytes` | src/IdeCounterpart/Commands/SendTrData.h:48-56 | gateway address, command 4, five zero bytes, length high byte first |
| `IdeFrame.IdeCounterpart.SendThenReceive` | src/IdeCounterpart/Commands/SendTrData.h:48-65 | what is packed is read back as command 4 and the same data, exactly up to 497 bytes |
| `Radio.SelectNodes` | src/IqrfDb/IqrfDbAux.cpp:25-33 | bit a % 8 of byte a / 8 is set exactly for the addresses of the given stretch of the address order |
| `Radio.AnswerIs` | src/IqrfDb/IqrfDb.cpp:957-976 | a node answers each request with the bytes it keeps for it |
| `Enumeration.PollAllOnline` | src/IqrfDb/IqrfDb.cpp:943-992 | polling keeps exactly the nodes that answer and records them in address order |
| `Enumeration.RecordAllMeaning` | src/IqrfDb/IqrfDb.cpp:1014-1032 | every enumerated node is recorded under the product its own memory spells; earlier records stay; nothing else enters |
| `Enumeration.RecordAllEnumerates` | src/IqrfDb/IqrfDb.cpp:1014-1032 | over the nodes' own bytes: each new device has the product that its HWPID, HWPID version, OS build and DPA version bytes spell, low byte first; a new product has the OS version and MCU bytes of the first node that spells it; everything else stays |
| `Enumeration.SpelledOnce` | src/IqrfDb/IqrfDb.cpp:1080-1090 | a node spells no other product |
| `Enumeration.SpellsHalves` | src/IqrfDb/IqrfDb.cpp:1084-1085 | the first byte is the low half of the word, the second its high half |
| `Enumeration.BatchAligned` | src/IqrfDb/IqrfDb.cpp:1194-1260 | in one batch of up to fifteen nodes, node k's four bytes are at offset 4k after the coordinator's slot |
| `Enumeration.BatchesAligned` | src/IqrfDb/IqrfDb.cpp:1061-1089 | batches put together stay aligned as long as only the last one is short |
| `Enumeration.SizeFits` | src/IqrfDb/IqrfDb.cpp:1003-1013 | all counters of the enumeration fit eight bits |
| `Enumeration.Enumerator.PollEnumeration` | src/IqrfDb/IqrfDb.cpp:943-992 | node by node: the set becomes the answering nodes, the tables hold the products that their bytes spell |
| `Enumeration.Enumerator.FrcPing` | src/IqrfDb/IqrfDb.cpp:1154-1192 | returns exactly the addresses that answer |
| `Enumeration.Enumerator.FrcBatch` | src/IqrfDb/IqrfDb.cpp:1194-1260 | one selective read gives the bytes of the next nodes, in order, with the extra result when needed |
| `Enumeration.Enumerator.FrcCollect` | src/IqrfDb/IqrfDb.cpp:1061-1089 | all batches together hold four bytes per node in address order |
| `Enumeration.Enumerator.FrcRead` | src/IqrfDb/IqrfDb.cpp:1061-1152 | each of the three batched reads yields every node's own four bytes |
| `Enumeration.FilterLoopEndsIff` | src/IqrfDb/IqrfDb.cpp:998-1007 | over any addresses the filter loop ends exactly when address 0 is not among them |
| `Enumeration.FilterLoopKeeps` | src/IqrfDb/IqrfDb.cpp:998-1007 | when it ends it has kept exactly the addresses that are online |
| `Enumeration.FilterLoopExample` | src/IqrfDb/IqrfDb.cpp:998-1007 | with address 0 alone the loop never moves |
| `Enumeration.Enumerator.Prune` | src/IqrfDb/IqrfDb.cpp:998-1007 | without address 0 the loop ends and leaves exactly the nodes that answered |
| `Enumeration.Enumerator.FrcEnumeration` | src/IqrfDb/IqrfDb.cpp:994-1032 | leaves the same set and the same tables as polling; a failed read changes no table |
| `Enumeration.Enumerator.EnumerateDevices` | src/IqrfDb/IqrfDb.cpp:734-751 | takes address 0 out, records the coordinator from its parameters and the nodes by either form, with one common outcome |
| `Eeeprom.ReadTable` | src/IqrfDb/IqrfDb.cpp:836-865 | chunks of 54 bytes and a remainder, also an empty one, are one contiguous read |
| `Eeeprom.NetworkInfo.GetMids` | src/IqrfDb/IqrfDb.cpp:813-865 | each MID is the little-endian word at its node's entry, for every memory and address set |
| `Eeeprom.MidBytes` | src/IqrfDb/IqrfDb.cpp:857-858 | the four bytes at 0x4000 plus eight times the address, least significant first |
| `Eeeprom.NetworkInfo.GetRoutingInformation` | src/IqrfDb/IqrfDb.cpp:867-929 | VRN, zone and parent of each discovered node are the bytes at their table bases plus the address |
| `Eeeprom.RoutingBytes` | src/IqrfDb/IqrfDb.cpp:890-928 | routing numbers and parents are the bytes at 0x5000 and 0x5300 plus the address, a zone that at 0x5200 less one in eight bits |
| `Reconcile.StoreAllMeaning` | src/IqrfDb/IqrfDb.cpp:1444-1537 | stored devices have the network's data and their computed product; every other row is as before |
| `Reconcile.StoreAllValid` | src/IqrfDb/IqrfDb.cpp:1444-1537 | ids, addresses and MIDs stay unique |
| `Reconcile.DriversOfLast` | src/IqrfDb/IqrfDb.cpp:1444-1537 | each product ends with exactly the computed drivers, whatever was stored |
| `Reconcile.CommitsIff` | src/IqrfDb/IqrfDb.cpp:1444-1537 | the transaction commits exactly when no write fails and no row, kept or just stored, owns a MID that another address is about to get |
| `Reconcile.StaleGoneIff` | src/IqrfDb/IqrfDb.cpp:700-732 | only devices of the network remain exactly when all ids to delete fit eight bits |
| `Reconcile.LiveKeptIff` | src/IqrfDb/IqrfDb.cpp:700-732 | no device of the network is deleted exactly when none has the id that remains of a stale one |
| `Reconcile.WrongDeviceDeleted` | src/IqrfDb/IqrfDb.h:759 | id 258 deletes device 2 |
| `Reconcile.RoundConverges` | src/IqrfDb/IqrfDb.cpp:1444-1537 | after a committed round every stored address is bonded or 0, answering nodes carry the network's MID, others are unchanged, and a second round selects exactly what it would have selected before, without the nodes that answered |
| `Reconcile.LeftOutIff` | src/IqrfDb/IqrfDb.cpp:715-730 | a node of the network is left out exactly without reenumeration and with the network's MID in its row |
| `Reconcile.NothingSelectedIff` | src/IqrfDb/IqrfDb.cpp:715-730 | nothing is selected exactly when every node's row carries the network's MID |
| `Reconcile.ChangedMidSelected` | src/IqrfDb/IqrfDb.cpp:715-730 | after a committed round a node that answered is selected again exactly when the network has changed its MID since |
| `Reconcile.MarksKept` | src/IqrfDb/IqrfDb.cpp:1493-1524 | storing keeps id and enumerated mark of a row; a new row is not enumerated |
| `Reconcile.RowsReplaced` | src/IqrfDb/IqrfDb.cpp:1472-1491 | inserting missing and removing unused rows makes the drivers of a product the computed set |
| `Reconcile.Reconciler.CheckNetwork` | src/IqrfDb/IqrfDb.cpp:700-732 | leaves out exactly the nodes whose row carries the network's MID, unless all are to be enumerated again; collects the ids of departed devices |
| `Reconcile.Reconciler.UpdateProductDrivers` | src/IqrfDb/IqrfDb.cpp:1472-1491 | the stored driver set becomes the computed one; drivers in both are not written, others once |
| `Reconcile.Reconciler.StoreDevice` | src/IqrfDb/IqrfDb.cpp:1454-1528 | inserts or updates one device, unless the database refuses the row |
| `Reconcile.Reconciler.UpdateDatabaseProducts` | src/IqrfDb/IqrfDb.cpp:1444-1537 | the whole round is stored, or the database is what it was before |
| `Standards.ServedIff` | src/IqrfDb/IqrfDb.cpp:1539-1554 | after a round, committed or rolled back, every device selected for standards has a product entry exactly when every surviving device outside the round was already enumerated |
| `Standards.OtherRowsSurvive` | src/IqrfDb/IqrfDb.cpp:1444-1537 | rows outside the round are afterwards the surviving ones, unchanged |
| `Standards.SkippedStandardsExample` | src/IqrfDb/IqrfDb.cpp:1550-1552 | a node stored by a round without standards is selected by the next one and has no entry |
| `Standards.AlwaysServed` | src/IqrfDb/IqrfDb.cpp:654-674 | from an enumerated table on, when all standards succeed after every round, no round ever selects a device without an entry |
| `Standards.StandardEnumerator.SelectDevices` | src/IqrfDb/IqrfDb.cpp:1542-1548 | selects exactly the devices of the round and those never enumerated |
| `Standards.StandardEnumerator.StandardEnumeration` | src/IqrfDb/IqrfDb.cpp:1539-1580 | completes exactly when every selected device has an entry, and marks exactly those it reached and that did not fail |
| `SensorEnum.TableIsResponse` | src/IqrfDb/IqrfDb.cpp:1723-1776 | for every previous table each index of the new one holds the sensor of the last entry with that index; up to 256 entries the table is the response |
| `SensorEnum.RerunKeepsAllIff` | src/IqrfDb/IqrfDb.cpp:1723-1776 | after it, the same response adds no record, and finds every row in place exactly up to 256 entries |
| `SensorEnum.InsertedIsRankIff` | src/IqrfDb/IqrfDb.cpp:1762-1762 | the counter equals the rank exactly when no earlier entry of the type was kept |
| `SensorEnum.RankIff` | src/IqrfDb/IqrfDb.cpp:1759-1764 | an entry gets its rank exactly when a kept row has it already, or an inserted one follows no kept one of its type and fits the counter |
| `SensorEnum.FirstEnumerationRanks` | src/IqrfDb/IqrfDb.cpp:1796-1846 | from an empty table every entry gets its rank among the entries of its type, in eight bits |
| `SensorEnum.CountableIff` | src/IqrfDb/IqrfDb.cpp:1799-1834 | the counters suffice exactly when every entry of the last type is kept |
| `SensorEnum.UncountableExample` | src/IqrfDb/IqrfDb.cpp:1799-1834 | a first sensor of type 255 has no counter |
| `SensorEnum.RankLostExample` | src/IqrfDb/IqrfDb.cpp:1833-1833 | a second sensor of a type ends with the type-local index of the first |
| `SensorEnum.SensorTable.EnumerateSensors` | src/IqrfDb/IqrfDb.cpp:1796-1846 | rows and records become the specified ones for every countable response, and nothing is written exactly when the table already was the response |
| `SensorEnum.SensorTable.FindOrInsertSensor` | src/IqrfDb/IqrfDb.cpp:1801-1825 | a sensor record is found by type and name, or added under a new id |
| `CacheHandshake.AlwaysSafe` | src/JsCache/JsCache.cpp:1584-1651 | in every run from the start, for any number of invokers, PENDING is seen only under the lock of the thread that set it, and the parked thread holds no exclusive access |
| `CacheHandshake.ReturnsFinalStatus` | src/JsCache/JsCache.cpp:570-597 | with one invoker at a time, only UP_TO_DATE, UPDATED or UPDATE_FAILED are returned, in every run |
| `CacheHandshake.AnswerIff` | src/JsCache/JsCache.cpp:570-597 | with one invoker at a time, over every run: UP_TO_DATE is returned exactly after a check that found no change, UPDATED exactly after a complete load, UPDATE_FAILED exactly for any other end, and the invoker waits for the load exactly after a change, each decided after it called |
| `CacheHandshake.DecidedIff` | src/JsCache/JsCache.cpp:1584-1651 | what decides is the last outcome of the run with no invocation begun since |
| `CacheHandshake.RoundsOrdered` | src/JsCache/JsCache.cpp:1601-1647 | for any number of invokers, over every run: a check follows granted access, a load follows a change found and every such change is loaded, and access is given back before the next round |
| `CacheHandshake.InvAlways` | src/JsCache/JsCache.cpp:1584-1651 | the handshake invariant holds in every reachable state |
| `CacheHandshake.RankDecreases` | src/JsCache/JsCache.cpp:570-597 | every step of an invocation under way brings it nearer to its end |
| `CacheHandshake.Progress` | src/JsCache/JsCache.cpp:1584-1600 | such a step always exists, except without a period with the thread parked |
| `CacheHandshake.InvocationCompletes` | src/JsCache/JsCache.cpp:570-597 | with a period every invocation returns within eleven steps, whatever the interleaving |
| `CacheHandshake.LostWakeUpIff` | src/JsCache/JsCache.cpp:1588-1595 | without a period, an invocation returns exactly when it finds the thread waiting at the top of its loop |
| `CacheHandshake.LostWakeUpExample` | src/JsCache/JsCache.cpp:1588-1595 | an invocation before the thread first waits is answered in no run |
| `CacheHandshake.FinalStatusesIff` | src/JsCache/JsCache.cpp:570-597 | for n invokers, every run returns only final statuses exactly when n is at most 1 |
| `CacheHandshake.AnsweredIff` | src/JsCache/JsCache.cpp:570-597 | for n invokers, every invocation in every run is answered within a bound exactly when n is 0, or n is 1 and there is a period |
| `CacheHandshake.OrphanedForever` | src/JsCache/JsCache.cpp:570-597 | an orphaned invoker is not answered until somebody calls again |
| `CacheHandshake.OverlappingInvocationLost` | src/JsCache/JsCache.cpp:570-597 | two overlapping invocations can orphan one of them, with or without a period and whoever else stands by |
| `CacheHandshake.OverlappingInvocationUnfinished` | src/JsCache/JsCache.cpp:570-597 | an overtaken invocation can return UPDATE_NEEDED |
| `CacheReload.TablesOfLastComplete` | src/JsCache/JsCache.cpp:1523-1582 | after any sequence of reloads all eight tables are those of the last complete one |
| `CacheReload.DriversAlwaysKnown` | src/JsCache/JsCache.cpp:972-1053 | in every run, each driver listed in a package is among the standards of the same tables |
| `CacheReload.ResolvedInOrder` | src/JsCache/JsCache.cpp:1026-1039 | a package carries the driver of each name the standards know, in order, and no other |
| `CacheReload.PackageOfFirstFile` | src/JsCache/JsCache.cpp:1040-1043 | of several files with one id only the first counts |
| `CacheReload.OnlyFiles` | src/JsCache/JsCache.cpp:1040-1050 | packages are exactly those of the files |
| `CacheReload.JsCache.UpdateCachePackages` | src/JsCache/JsCache.cpp:972-1053 | packages are resolved against the standards loaded before them |
| `CacheReload.JsCache.UpdateTables` | src/JsCache/JsCache.cpp:1540-1547 | the stages together build one snapshot, or fail |
| `CacheReload.JsCache.LoadCache` | src/JsCache/JsCache.cpp:1523-1582 | all eight tables are replaced, or none is, whichever stage or handler fails |
| `CacheReload.JsCache.CheckCache` | src/JsCache/JsCache.cpp:1154-1188 | reports up to date exactly when the loaded checksum is the remote one |
| `CacheReload.JsCache.FailedReloadIsRetried` | src/JsCache/JsCache.cpp:1523-1582 | after a failed reload the next check against the same remote asks for an update again |
| `Backup.CheckOfChange` | src/IqrfRestore/IqrfRestore.cpp:316-320 | replacing one byte changes the check by the difference of the two bytes |
| `Backup.SingleByteRejected` | src/IqrfRestore/IqrfRestore.cpp:305-326 | changing any one byte of an accepted container, header or payload, makes it unacceptable |
| `Backup.ContainerAcceptedIff` | src/IqrfBackup/IqrfBackup.cpp:195-246 | a written container is accepted exactly when it has fewer than 256 blocks |
| `Backup.WideContainerAccepted` | src/IqrfRestore/IqrfRestore.cpp:304-324 | a container with a sixteen-bit count, low byte first, is accepted with exactly that count, up to 65535 blocks |
| `Backup.AcceptedIsWide` | src/IqrfRestore/IqrfRestore.cpp:304-324 | whatever is accepted has that form |
| `Backup.CheckOfNothing` | src/IqrfRestore/IqrfRestore.cpp:317-317 | the check starts from 0x5F |
| `Backup.WrappedExample` | src/IqrfBackup/IqrfBackup.cpp:195-246 | 256 blocks are counted as none and refused |
| `Backup.PayloadAt` | src/IqrfBackup/IqrfBackup.cpp:238-242 | block k stands at offset 49k of the payload |
| `Backup.ReadBlocks` | src/IqrfBackup/IqrfBackup.cpp:195-242 | all blocks of the device, in order, and the eight-bit count |
| `Backup.ReadBackupData` | src/IqrfBackup/IqrfBackup.cpp:189-253 | writes count, check and blocks as one container |
| `Backup.Crc8` | src/IqrfBackup/IqrfBackup.cpp:248-251 | the exclusive or of all payload bytes and 0x5F |
| `Backup.Restorer.WriteBackupData` | src/IqrfRestore/IqrfRestore.cpp:230-279 | sends each block of the payload once, in order; without any block it sends leftovers and fails |
| `Backup.Restorer.Restore` | src/IqrfRestore/IqrfRestore.cpp:291-345 | each error, a completed and an aborted restore exactly for its cause; accepted exactly with matching length and check |
| `Backup.Restorer.BackupThenRestore` | src/IqrfRestore/IqrfRestore.cpp:291-345 | up to 255 blocks are written back exactly as read; 256 blocks are refused |
| `JsContext.EveryDeviceMapped` | src/IqrfDb/IqrfDb.cpp:1964-2044 | after a load without failing scripts each device is mapped to its own product, by a live context |
| `JsContext.StoredDriversLoadedIff` | src/DbEntities/repositories/product_driver_repo.hpp:156-179 | a product runs its stored drivers exactly when it was not mistaken for up to date |
| `JsContext.ContextsAfterReload` | src/IqrfDb/IqrfDb.cpp:2000-2038 | after a reload a chosen product that loads has the newest drivers if it is the coordinator's and its stored ones otherwise, and its custom driver exactly if it has one; a failing one has no context; others are unchanged |
| `JsContext.CoordinatorExample` | src/IqrfDb/IqrfDb.cpp:2004-2006 | the coordinator's product with driver 1 stored gets the newer driver 9 as well |
| `JsContext.StaleProductKept` | src/DbEntities/repositories/product_driver_repo.hpp:168-168 | product 5 keeps driver 5 although driver 7 is stored |
| `JsContext.ChosenAgainIff` | src/IqrfDb/IqrfDb.cpp:1978-1998 | on unchanged rows the next call chooses exactly the failed products and those whose drivers are not the one mistaken number |
| `JsContext.ChosenAgainExample` | src/IqrfDb/IqrfDb.cpp:1978-1998 | a product just loaded with its stored driver is chosen again |
| `JsContext.LiveAfterReloadIff` | src/JsRenderDuktape/JsRenderDuktape.cpp:68-88 | addresses stay live exactly when those of failed products move to products that load |
| `JsContext.AlwaysLive` | src/JsRenderDuktape/JsRenderDuktape.cpp:68-95 | over every run without failing loads, mapped addresses resolve to live contexts built from the recorded drivers |
| `JsContext.EveryCallServed` | src/JsRenderDuktape/JsRenderDuktape.cpp:147-177 | over every such run a mapped address is served by its own context, and after a load every device by its own product, never by a provisional context |
| `JsContext.UnmappedServed` | src/JsRenderDuktape/JsRenderDuktape.cpp:106-145 | an address that is not mapped is served by the context of its HWPID, or else by the one for every HWPID |
| `JsContext.DanglingExample` | src/JsRenderDuktape/JsRenderDuktape.cpp:68-88 | a device whose only product fails to load is left with a context that is gone |
| `JsContext.ProvisionalKept` | src/include/IJsRenderService.h:32-33 | loading products never touches a provisional context |
| `JsContext.LoadEachMeaning` | src/IqrfDb/IqrfDb.cpp:2000-2038 | loading products one by one changes exactly their contexts, drivers and addresses |
| `JsContext.JsRender.LoadContextCode` | src/JsRenderDuktape/JsRenderDuktape.cpp:68-88 | replaces a context, or drops it when its script fails |
| `JsContext.JsRender.MapAddressToContext` | src/JsRenderDuktape/JsRenderDuktape.cpp:90-95 | one address is mapped, nothing else changes |
| `JsContext.JsRender.CallContext` | src/JsRenderDuktape/JsRenderDuktape.cpp:106-145 | address 0 falls back to the default context when its own lacks the function |
| `JsContext.JsRender.ClearContexts` | src/JsRenderDuktape/JsRenderDuktape.cpp:187-194 | all three maps become empty |
| `JsContext.JsRender.ChooseProducts` | src/IqrfDb/IqrfDb.cpp:1974-1998 | chooses the products with an unmapped or elsewhere mapped device, or with seemingly different drivers |
| `JsContext.JsRender.LoadProductDrivers` | src/IqrfDb/IqrfDb.cpp:1964-2044 | loads exactly the chosen products and maps the devices of those that load |
| `DukStack.Split` | src/include/StringUtils.h:82-93 | the parts hold no delimiter and make up the string again |
| `DukStack.SplitUnique` | src/include/StringUtils.h:82-93 | no other parts do |
| `DukStack.FindNext` | src/JsRenderDuktape/Context.cpp:46-74 | one more property step reaches what the longer path reaches |
| `DukStack.FirstMissingIs` | src/JsRenderDuktape/Context.cpp:49-56 | the reported namespace part is the first that leads nowhere |
| `DukStack.ObstacleIff` | src/JsRenderDuktape/Context.cpp:46-74 | which error is reported, exactly: the first part that leads nowhere, a missing command for half of it, or a missing function |
| `DukStack.HalfIff` | src/JsRenderDuktape/Context.cpp:57-59 | half of a command is a stem with `_req` or `_rsp` |
| `DukStack.Context.LoadCode` | src/JsRenderDuktape/Context.cpp:35-44 | a loaded script leaves the stack as it was |
| `DukStack.Context.FindNamespaceObject` | src/JsRenderDuktape/Context.cpp:46-74 | counts what it leaves on the stack; every failure clears it and is reported as what is missing |
| `DukStack.Context.Invoke` | src/JsRenderDuktape/Context.cpp:85-102 | the call gives back all counted entries, on success and on error, unless it ends the process |
| `DukStack.Context.CallFunction` | src/JsRenderDuktape/Context.cpp:76-103 | on every path that the process survives the stack is as before the call, and the function called is the one the whole name leads to |
| `DriverFallback.BuildUnique` | src/IqrfDb/IqrfDb.cpp:1869-1886 | the build to use is determined |
| `DriverFallback.BuildIff` | src/IqrfDb/IqrfDb.cpp:1869-1886 | the build is a known one with none nearer from below, and above the coordinator's only if all are |
| `DriverFallback.BuildMonotone` | src/IqrfDb/IqrfDb.cpp:1869-1886 | a newer build never gets an older one |
| `DriverFallback.VersionUnique` | src/IqrfDb/IqrfDb.cpp:1892-1908 | the version to use is determined |
| `DriverFallback.VersionIff` | src/IqrfDb/IqrfDb.cpp:1892-1908 | the version is usable and no usable one is greater |
| `DriverFallback.Cache.GetDrivers` | src/JsCache/JsCache.cpp:438-460 | the drivers of all packages for an OS build and a DPA version |
| `DriverFallback.Cache.GetOsDpa` | src/JsCache/JsCache.cpp:483-507 | the DPA versions listed for each OS build |
| `DriverFallback.Cache.FindBuild` | src/IqrfDb/IqrfDb.cpp:1869-1886 | the own build if known, else the greatest known one below it, else the least known |
| `DriverFallback.Cache.FindVersion` | src/IqrfDb/IqrfDb.cpp:1892-1908 | the greatest version not above the coordinator's that has a driver, or none |
| `DriverFallback.Cache.CoordinatorDrivers` | src/IqrfDb/IqrfDb.cpp:1850-1910 | an exact match, or the drivers of that build and version |
| `SensorFrc.OrderIrrelevant` | src/DpaParser/JsDriverStandardFrcSolver.h:197-217 | with disjoint HWPID groups the merged slots do not depend on the order of the groups |
| `SensorFrc.MergeAllSlot` | src/DpaParser/JsDriverStandardFrcSolver.h:209-217 | the slot of a node comes from its own group's decoding |
| `SensorFrc.SelectiveAttribution` | src/DpaParser/JsDriverSensor.h:248-268 | the k-th selected node has a reading exactly when its own HWPID driver decoded one in slot k, and it is that one |
| `SensorFrc.OnlySelected` | src/DpaParser/JsDriverSensor.h:248-268 | only selected nodes have readings |
| `SensorFrc.ReadingsUnique` | src/DpaParser/JsDriverSensor.h:248-268 | no node has two |
| `SensorFrc.UnselectedOneTooLow` | src/DpaParser/JsDriverSensor.h:259-263 | without a selection the reading of slot a is reported for address a - 1, and only so |
| `SensorFrc.UnselectedRightIff` | src/DpaParser/JsDriverSensor.h:259-263 | an answer without a selection is attributed right exactly when no node answered |
| `SensorFrc.UnselectedExample` | src/DpaParser/JsDriverSensor.h:259-263 | node 3's reading is reported for node 2 |
| `SensorFrc.StoredUnderOwnAddressIff` | src/IqrfDb/IqrfDb.cpp:481-500 | for every answer and selection each value is written to its own node and nowhere else exactly when every non-null slot has the number of its node |
| `SensorFrc.EveryAnswerLandsIff` | src/IqrfDb/IqrfDb.cpp:481-500 | whatever the answer, all values land right exactly for the selection of the nodes 1 to n |
| `SensorFrc.WrongAddressExample` | src/IqrfDb/IqrfDb.cpp:481-500 | the value of node 2, selected alone, is written to node 1 |
| `SensorFrc.SensorValues.UpdateSensorValues` | src/IqrfDb/IqrfDb.cpp:454-505 | writes each non-null slot to the row of its number; a missing row is passed over, or ends the loop for a data block; what is stored up to there, and that a data block replaces nothing |
| `SensorFrc.SensorValues.SetValue` | src/IqrfDb/IqrfDb.cpp:291-331 | one row changes, if it exists; a data block once stored is kept |
| `SensorFrc.FrcSolver.MergeSelected` | src/DpaParser/JsDriverStandardFrcSolver.h:209-217 | the inner loop of a selective answer |
| `SensorFrc.FrcSolver.MergeByAddress` | src/DpaParser/JsDriverStandardFrcSolver.h:202-208 | the inner loop of a non-selective answer takes exactly the group's slots |
| `SensorFrc.FrcSolver.ProcessSelective` | src/DpaParser/JsDriverStandardFrcSolver.h:168-231 | merges all groups unless some driver fails; the coordinator's slot and those after the last node stay null |
| `SensorFrc.FrcSolver.ProcessUnselective` | src/DpaParser/JsDriverStandardFrcSolver.h:168-231 | each slot is its node's own decoding and all other slots stay null, unless some driver fails |
| `SensorFrc.FrcSolver.PostResponse` | src/DpaParser/JsDriverSensor.h:248-268 | every access to the list of requested nodes is in bounds; the readings are the non-null slots in order |
| `SensorRound.BatchFits` | src/IqrfSensorData/IqrfSensorData.cpp:78-89 | a full batch and the coordinator's slot take exactly 64 bytes |
| `SensorRound.SlotReceivedIff` | src/IqrfSensorData/IqrfSensorData.cpp:91-102 | the fetched bytes hold every device's slot except the last one's of 55, 27 or 13 |
| `SensorRound.LastSlotMissedExample` | src/IqrfSensorData/IqrfSensorData.cpp:91-102 | for 55 devices of a one-byte quantity 55 bytes are fetched, and the last one's is the 56th |
| `SensorRound.MemoryReadRightIff` | src/IqrfSensorData/IqrfSensorData.cpp:221-247 | whatever the memories, byte k of a memory read is node k's exactly for up to 54 devices |
| `SensorRound.TakenSize` | src/IqrfSensorData/IqrfSensorData.cpp:232-241 | a piece contributes one byte per device, and nine more exactly for more than 55 |
| `SensorRound.LastByteForeign` | src/IqrfSensorData/IqrfSensorData.cpp:232-232 | with 55 devices the last byte comes from beyond the answer |
| `SensorRound.ForeignByteExample` | src/IqrfSensorData/IqrfSensorData.cpp:232-232 | a byte behind the answer is taken for that of node 55 |
| `SensorRound.SensorReader.FrcReadMemory` | src/IqrfSensorData/IqrfSensorData.cpp:221-247 | puts the bytes of all pieces together as the code takes them |
| `SensorRound.ChunksCover` | src/IqrfSensorData/IqrfSensorData.cpp:249-261 | batches ask exactly the listed devices |
| `SensorRound.ChunkSizes` | src/IqrfSensorData/IqrfSensorData.cpp:249-261 | none exceeds the size when the number of full batches fits its counter |
| `SensorRound.BatchesFitIff` | src/IqrfSensorData/IqrfSensorData.cpp:249-261 | all batches keep to the size exactly when the number of full ones fits eight bits |
| `SensorRound.AskedOnceIff` | src/IqrfSensorData/IqrfSensorData.cpp:249-261 | a device is asked once exactly when its rows fall into one batch |
| `SensorRound.BatchTally` | src/IqrfSensorData/IqrfSensorData.cpp:160-219 | a batch yields exactly one reading for each device: its answer, or a placeholder |
| `SensorRound.AssembledIsCollected` | src/IqrfSensorData/IqrfSensorData.cpp:183-213 | the readings attributed by position and the placeholders for unhandled nodes are every device's own reading, or its placeholder |
| `SensorRound.CollectedOwn` | src/IqrfSensorData/IqrfSensorData.cpp:160-219 | whatever a batch collects for a device is its own value, exactly when it has one and its slot was fetched |
| `SensorRound.BatchValueIff` | src/IqrfSensorData/IqrfSensorData.cpp:160-219 | a batch yields a value of a sensor exactly when its device has it and is not the last of 27 two-byte, 55 one-byte or 13 four-byte devices |
| `SensorRound.HandledIff` | src/IqrfSensorData/IqrfSensorData.cpp:183-190 | a device of a batch counts as handled exactly when it has a reading of its own |
| `SensorRound.StoredWholeIff` | src/IqrfSensorData/SensorDataResult.h:110-121 | a list is stored whole exactly when all its addresses but possibly the last are registered |
| `SensorRound.DroppedExample` | src/IqrfSensorData/SensorDataResult.h:117-117 | the reading behind one of an unregistered address is dropped |
| `SensorRound.AddedTotal` | src/IqrfSensorData/SensorDataResult.h:110-121 | with all addresses registered every reading is stored once |
| `SensorRound.RoundTotal` | src/IqrfSensorData/IqrfSensorData.cpp:323-357 | a completed round adds one reading of a sensor for every batch that asks for it, and nothing else |
| `SensorRound.RoundOwn` | src/IqrfSensorData/IqrfSensorData.cpp:323-357 | over a whole round no reading ends up with another device or sensor |
| `SensorRound.RoundHolds` | src/IqrfSensorData/IqrfSensorData.cpp:323-357 | a completed round holds an entry exactly when it was there or a batch of the sensor's own type and index yields it |
| `SensorRound.RoundValueIff` | src/IqrfSensorData/IqrfSensorData.cpp:323-357 | after a completed round a registered sensor has a value exactly when it had it, or its device has it and its slot arrives in a batch that asks for it |
| `SensorRound.CompletesIff` | src/IqrfSensorData/IqrfSensorData.cpp:338-354 | a round completes exactly when every stored sensor of type below 0xC0 and index below 32 has a type that an FRC command reads |
| `SensorRound.ExactlyOneReadingIff` | src/IqrfSensorData/IqrfSensorData.cpp:323-357 | a stored sensor of a type below 0xC0 and index below 32 gets exactly one reading exactly when its rows fall into one batch |
| `SensorRound.UniqueInOneBatch` | src/IqrfSensorData/IqrfSensorData.cpp:323-357 | which they do when no sensor is stored twice |
| `SensorRound.ReadTwiceExample` | src/IqrfSensorData/IqrfSensorData.cpp:249-261 | a sensor stored in the rows 30 and 31 of a two-byte quantity is read twice |
| `SensorRound.SensorDataResult.AddSensorData` | src/IqrfSensorData/SensorDataResult.h:110-121 | stores readings up to and including the first from an unregistered address |
| `SensorRound.SensorReader.SendSensorFrc` | src/IqrfSensorData/IqrfSensorData.cpp:160-219 | the readings that the positions in the answer attribute to the nodes, exactly those that are present and arrive, and on request placeholders for the other nodes |
| `SensorRound.SensorReader.SplitSet` | src/IqrfSensorData/IqrfSensorData.cpp:104-124 | the pieces are the consecutive stretches of the set, without an empty one |
| `SensorRound.SensorReader.CutBatches` | src/IqrfSensorData/IqrfSensorData.cpp:249-261 | the batches are the consecutive stretches of the address list; the number of full ones is taken in eight bits |
| `SensorRound.SensorReader.GetTypeData` | src/IqrfSensorData/IqrfSensorData.cpp:249-274 | collects all batches; fails exactly for a type no FRC command reads |
| `SensorRound.SensorReader.GetDataByFrc` | src/IqrfSensorData/IqrfSensorData.cpp:323-357 | completes exactly when every stored sensor it asks for has a readable type |
| `Rssi.CompleteIff` | src/IqrfSensorData/IqrfSensorData.cpp:307-321 | in every network all signal strengths are obtained exactly for at most 63 nodes other than 55 |
| `Rssi.OwnLevel` | src/IqrfSensorData/IqrfSensorData.cpp:307-321 | each device that is heard gets its own level, every other address keeps what it had |
| `Rssi.LevelIff` | src/IqrfSensorData/IqrfSensorData.cpp:315-315 | a level is the reading plus 130, in eight bits |
| `Rssi.AgainSame` | src/IqrfSensorData/IqrfSensorData.cpp:310-317 | the repeated requests change nothing |
| `Rssi.AskedOncePerPiece` | src/IqrfSensorData/IqrfSensorData.cpp:309-313 | the set is asked once exactly when it has at most 63 nodes |
| `Rssi.LastNodeUnheardExample` | src/IqrfSensorData/IqrfSensorData.cpp:313-313 | 64 nodes are asked twice, and node 64 is heard neither time |
| `Rssi.RssiReader.SetDeviceRssi` | src/IqrfSensorData/SensorDataResult.h:83-94 | a level of 0 is ignored, any other replaces the device's |
| `Rssi.RssiReader.GetRssiBeaming` | src/IqrfSensorData/IqrfSensorData.cpp:307-321 | one request per piece, after which the levels are those of a single request |
| `Tokens.StepKeeps` | src/AuthService/AuthService.cpp:124-178 | no command changes a token that is not valid; a valid one changes only by being invalidated |
| `Tokens.LeavesValidOnce` | src/ApiTokenCtl/commands.cpp:133-211 | over every run a token leaves Valid at most once, never returns, and its row is then frozen |
| `Tokens.OneValidPerChain` | src/ApiTokenCtl/commands.cpp:162-211 | over every run two tokens of one rotation chain agree in owner, service flag and lifetime, and only one can be valid |
| `Tokens.StepChained` | src/ApiTokenCtl/commands.cpp:162-211 | every command keeps the rotation chains |
| `Tokens.CreatedOpens` | src/ApiTokenCtl/commands.cpp:35-67 | a created token lets its own secret in until its expiry, and no other; other rows stay |
| `Tokens.RotatedOpens` | src/ApiTokenCtl/commands.cpp:162-211 | a rotation's new token lets exactly the fresh secret in, for the old lifetime and with the old permission; the old token is revoked, other rows stay |
| `Tokens.NeverGrantedAgain` | src/AuthService/AuthService.cpp:124-178 | once reported expired, revoked or rotated away, a token is never granted again, whatever the clock does |
| `Tokens.ExpiredReportStickyIff` | src/ApiTokenCtl/commands.cpp:152-155 | after an expired report of revoke or rotate and any further commands, the token is granted exactly when its row is unchanged, to its secret, at a clock before its expiry |
| `Tokens.ExpiredReportNotSticky` | src/ApiTokenCtl/commands.cpp:152-155 | a clock going back from 100 to 99 grants it |
| `Tokens.TokenStore.CreateToken` | src/ApiTokenCtl/commands.cpp:35-67 | a new valid token under a new id, unless the owner's name is too long |
| `Tokens.TokenStore.RevokeToken` | src/ApiTokenCtl/commands.cpp:133-160 | revokes exactly a valid token before its expiry |
| `Tokens.TokenStore.RotateToken` | src/ApiTokenCtl/commands.cpp:162-211 | revokes a token and issues its successor, or does neither |
| `Tokens.TokenStore.AuthenticateToken` | src/AuthService/AuthService.cpp:124-178 | grants exactly a valid token before its expiry to its own secret, and stores the expiry of an overdue one |
| `Tokens.RevokedIff` | src/AuthService/AuthService.cpp:180-189 | over every run a token is revoked exactly when a revocation or rotation of it succeeded |
| `Tokens.TokenStore.IsTokenRevoked` | src/AuthService/AuthService.cpp:180-189 | unknown exactly for a missing token, and true exactly when some earlier command revoked or rotated it |

## Left out

- Device and socket drivers, the DPA service, JSON messages, configuration, tracing and component wiring: input and
  output without a property of their own; exclusive access is a token that may be refused.
- SQLite, OpenSSL, base64, download and extraction of the repository: tables are maps, a hash is a number, each stage
  may fail.
- Metadata of products, contents of driver scripts, and what the enumeration of a standard stores.
- Standards.StandardEnumerator.StandardEnumeration: a device without a product entry makes the code read through an
  empty reference; the model ends there.
- Spurious wake-ups of condition variables, and shutting down the cache thread.
- The radio answer of a node is modelled as bytes of its own memory, and the slots of silent nodes as arbitrary bytes;
  offsets inside DPA records follow the DPA protocol headers, which are not part of this repository.
- Versions of the operating system are kept as the bytes they are formatted from.
- Enumeration.Enumerator.FrcEnumeration: equality with polling is claimed when no radio transaction fails; with a
  failure the tables are unchanged, but nodes that did not answer are already dropped from the set.
- Reconcile: rows of departed products are not removed, as in the code; the values of sensor rows that disappear with a
  device are not modelled.
- SensorEnum.SensorTable.EnumerateSensors: a new sensor of type 255 is counted outside the array of counters; the model
  fails there, what the code does next is undefined.
- JsContext: scripts are the set of drivers and the custom driver they are built from; the order of drivers in a script
  and database errors during a load are not modelled.
- DukStack: properties that exist but are null or undefined end the process inside the script engine and are not
  modelled; for invalid parameters and results without a JSON form the model says only that the process ends.
- DriverFallback.Cache.CoordinatorDrivers: without any known OS build the code reads past an empty map; the model
  reports that there are no drivers. Builds and versions are numbers, their texts are not modelled.
- SensorFrc.SensorValues.UpdateSensorValues: a value is one number; the choice of a breakdown's value for types 129 and
  160, time stamps and values that are no numbers are not modelled.
- SensorRound.SensorReader.SendSensorFrc: a device whose bytes were not fetched counts as one without a reading; the
  translation of type-local to global indexes, which can only fail for sensors that are not stored, is not modelled.
- SensorRound.SensorReader.FrcReadMemory: the bytes behind the first answer are whatever memory holds there.
- Rssi.RssiReader.GetRssiBeaming: a sum outside eight bits wraps, more nodes than an answer holds have no slot, and
  failed requests and the memory read for the devices that were not heard are not part of it.
- Tokens: commands are atomic and times are whole seconds, as stored.
