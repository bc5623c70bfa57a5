# fty-rest: verified models of the asset and network core

This project models the parts of fty-rest with the most branching and state, and proves what they
keep, compute and promise, for all inputs.

| files | part of the repository |
|---|---|
| `Bytes`, `CidrAddress`, `CidrBlocks`, `SkippingWalk`, `CidrScan`, `CidrList`, `CidrEnumeration` | addresses in CIDR form and the skipping iterator over included and excluded blocks |
| `AssetTable`, `AssetImport`, `AssetFixpoint`, `AssetStored` | the multi-pass import of asset rows |
| `AssetTree`, `AssetDelete`, `AssetTrace`, `AssetBatch`, `AssetHistory` | deleting assets one at a time and in batches, and any sequence of both |
| `SseStream`, `SseDelivery` | the event stream of one subscriber |
| `CsvTable`, `JsonColumns`, `JsonTitles`, `JsonContent`, `JsonReadBack` | flattening a JSON asset into titled cells and reading it back |
| `ScaledInt`, `DecimalText`, `Escaping`, `UpsStatus` | scaled integers and their text form, escaping of special characters, UPS status words |

`Common` holds what several of them use. `dafny verify dfyconfig.toml` checks everything.

## How to read the models

*Addresses.* A `Cidr` is absent, IPv4 or IPv6, with its address as a number. `++`, `--` and the comparison work on
big-endian byte arrays in place and are proved against arithmetic on that number. A `Block` is a valid IPv4 network
with zero host bits (section 3.1 of RFC 4632). `Selected` is longest match (section 5.1 of RFC 4632) with the network
and broadcast addresses of blocks shorter than /31 filtered out (section 2.1 of RFC 3021). On equal prefixes the
include wins, as `src/shared/cidr.cc:582` has it; the class comment (`src/shared/cidr.h:332-338`) says the opposite.

*What the iterator loses.* `next` jumps out of an exclude to the exclude's last address, or to one before an include
inside it, and then steps once more. `JumpPassesOnlyItsTarget` shows that the landing address itself is the only
selected address such a jump can pass over, so the exact condition is one test per jump: the landing address is
selected (`Loses`). One call and one full run are exact if and only if no jump on the way does that (`NextIsExact`,
`FullRunIsExact`), and all calls from all addresses are exact if and only if no excluded address jumps onto a selected
one (`EveryNextIsExact`). `JumpLosesItsTarget` says which includes cause it, `AddressLost` and `OrderMatters` give
concrete lists, the second one showing that the order of `add` calls decides. `Apart` is a condition on the list alone
under which nothing is lost (`FullRunOfApartList`); lists whose includes all have at least four addresses, and lists
without excludes, meet it (`FullRunOfCleanList`).

*Import.* The database is a table of elements with internal and external names. A *run* is a sequence of rows each of
which `process_row` accepts in its turn; `Load` is proved to produce a run that cannot be continued, and everything
else is proved about such runs. `Accepts` states when a row is imported. For files without ids and without repeated
names the imported rows are the least set closed under "every referenced element is there", including references to
internal names the database invents on the way, so neither the order of the rows nor of the retries matters.
`AcceptsMeans` and `Stores` say over the rows of the table, without any search, which rows are imported and what every
field of the written element is; `TableAfterImport` says what the table holds at the end.

*Deletes.* Whether a statement fails is an input (`Faults`), so all results hold for every pattern of database errors.
The permutation that `std::sort` produces is an input too (`order`), because the comparator is not a strict weak order:
`ComparatorIsNotStrict` states exactly when an asset sorts before itself. `depth` and `height` are proof-only witnesses
that no asset is above itself. `ReplyTo` and `AfterAttempt` say what one transaction answers and leaves; a *trace* is a
sequence of them, with the tables before and after each. Every single delete, every batch and every sequence of both is
proved to be a trace, so what holds of traces (`DatacenterRemains`, `RowsLeft`, `UntouchedStays`) holds at every moment
of every history (`ServeAll`). `ReplyMeans` and `TablesAfter` state a transaction over the rows of the four tables.

*Event stream.* One `State` per subscriber; `Messages` and `After` say what an event sends and changes. The JSON text
around a payload is not modelled, a message is a value. What must not be sent is proved in `SseStream`, what must be
sent in `SseDelivery`.

*Flattening.* What the import finds again is decided on the members of the JSON asset: a numbered title is in the table
exactly when a list of the asset has that element, or a *stray* member makes it, which is a member of that very name or
a list among the nested attributes (`NumberedCells`). `Content` is the declarative form of all columns and `WellFormed`
of the assets that flatten (`ContentIsFlattened`, `FlattensExactly`). On assets without either (`Tidy`) everything comes back.

*UPS status.* A bitmap is the set of its bits: `|` is union, `1 << i` is `{i}`. The round trips are proved for any
prefix-free table and then for the table of the repository.

## Findings about the code

Each is a proved statement, listed below with its member.

- The iterator can skip a selected single address or /31 at the end of a jump (`AddressLost`, exact condition in `FullRunIsExact`).
- A row imported with an activation warning is reported nowhere: the retry loop clears its text (`WarnedRowsAreUnreported`, file `WarnedRowExample`).
- A failed delete changes the tables if and only if the agent failed, which happens after the commit (`AssetDb.DeleteItem`, tables `AgentFailsAfterCommit`).
- The comparator of the batch delete is reflexive on some elements and symmetric on siblings (`ComparatorIsNotStrict`).
- A device created twice can be reported as removed and then come back (`RemovedAssetComesBack`, exact step in `StepKeepsDisjoint`).
- Escaping changes the meaning of a text that ends in a lone backslash and has a special character (`EscapeKeepsMeaning`, text `DanglingBackslashLost`).
- The sign of a decimal between -1 and 0 is lost, and sums below the range are narrowed (`SumIsMeant`, `ResultIsExact`, texts `SignLost` and `SumBelowRange`).
- Adding in 32 bits before the range check accepts every sum (`CheckAfterWrappingIsBlind`, operands `WrappedSumAccepted`).
- A member such as `group.3` next to a `groups` list of two is read as a third group (`GroupsReadBack`, exact condition; asset `StrayGroupIsRead`).

## Model

| member | source | states |
|---|---|---|
| Bytes.IncrementedAddsOne | src/shared/cidr.cc:102-107 | the carry chain adds one modulo the range of the bytes |
| Bytes.DecrementedTakesOne | src/shared/cidr.cc:135-140 | the borrow chain takes one away modulo the range |
| Bytes.IncrementInPlace | src/shared/cidr.cc:101-117 | the byte loop of ++ leaves the number plus one, wrapping from all ones to zero, for any number of bytes |
| Bytes.DecrementInPlace | src/shared/cidr.cc:134-150 | the byte loop of -- leaves the number minus one, wrapping from zero to all ones |
| Bytes.FirstDifferenceDecides | src/shared/cidr.cc:452-457 | the first differing byte orders the numbers |
| Bytes.CompareBytes | src/shared/cidr.cc:452-471 | the compare loop returns the order of the numbers |
| CidrAddress.CIDRAddress.Increment | src/shared/cidr.cc:90-121 | an invalid address stays; a valid one becomes the host address after it, modulo 2^32 or 2^128 |
| CidrAddress.CIDRAddress.Decrement | src/shared/cidr.cc:123-154 | the same downwards |
| CidrAddress.CIDRAddress.CompareTo | src/shared/cidr.cc:425-480 | numeric order within a protocol, invalid below IPv4 below IPv6 |
| CidrAddress.PredUndoesSucc | src/shared/cidr.cc:90-154 | -- undoes ++ up to the prefix, if and only if the address is not all ones |
| CidrAddress.SuccUndoesPred | src/shared/cidr.cc:90-154 | ++ undoes -- up to the prefix, if and only if the address is not 1 |
| CidrAddress.SuccIsNext | src/shared/cidr.cc:90-121 | ++ gives the next address of the protocol with a host prefix, zero after all ones |
| CidrAddress.PredIsPrevious | src/shared/cidr.cc:123-154 | -- gives the address before |
| CidrAddress.OrderMeans | src/shared/cidr.cc:425-480 | smaller number within a protocol, every invalid address below every IPv4 one, those below every IPv6 one |
| CidrAddress.LessIsStrictWeakOrder | src/shared/cidr.cc:511-519 | < is irreflexive, transitive, and not being ordered is an equivalence |
| CidrBlocks.ContainsIsInterval | src/shared/cidr.h:214-223 | equal leading bits means lying between first and last address |
| CidrBlocks.Nested | src/shared/cidr.h:214-223 | two blocks that share an address are nested, and equal on equal prefixes |
| CidrBlocks.LastFits | src/shared/cidr.h:263-269 | the broadcast address of a block is a 32-bit address |
| CidrBlocks.HostMax | src/shared/cidr.h:242-247 | one below the last address, the last one itself from /31 on |
| CidrScan.BestIsLongest | src/shared/cidr.cc:669-684 | the chosen block contains the address and no longer one does |
| CidrScan.SelectedMeaning | src/shared/cidr.cc:566-599 | selection without search: some include is at least as long as every block around the address, which is not its network or broadcast address |
| CidrScan.FirstAddressIsLowest | src/shared/cidr.cc:639-652 | the first address is the lowest network address |
| CidrScan.LastAddressIsHighest | src/shared/cidr.cc:654-667 | the last address is the highest host address |
| CidrScan.SelectedWithinEnds | src/shared/cidr.cc:639-667 | every selected address lies between the two |
| CidrScan.NextStartIsLowestAbove | src/shared/cidr.cc:686-703 | the pool skipped to is the next one above, if there is any |
| CidrScan.PoolAhead | src/shared/cidr.cc:686-703 | up to the last address there always is a next pool |
| CidrScan.GapIsEmpty | src/shared/cidr.cc:576-579 | skipping a gap passes over nothing selected |
| CidrScan.NoStartInsideJump | src/shared/cidr.cc:705-725 | no include starts strictly inside the jump out of an exclude, whatever the order of the list |
| CidrScan.JumpPassesOnlyItsTarget | src/shared/cidr.cc:705-725 | of the addresses jumped over only the landing address can be selected, and then an include of at most two addresses starts there |
| CidrScan.JumpLosesItsTarget | src/shared/cidr.cc:705-725 | the landing address is selected if and only if a /32 include starts there, or a /31 one under no /32 exclude |
| CidrScan.StepPasses | src/shared/cidr.cc:569-597 | one filtered step passes over a selected address if and only if it is such a jump |
| CidrScan.NoLosses | src/shared/cidr.cc:705-725 | with includes of at least four addresses, or without excludes, there is no such jump |
| CidrScan.ApartNeverLoses | src/shared/cidr.cc:705-725 | no address of such a list jumps onto a selected one: when no include of one or two addresses starts inside an exclude at its last address or one before another include |
| CidrScan.ApartListsAreExact | src/shared/cidr.cc:552-599 | on those lists the run from any address is the exhaustive one |
| CidrScan.CleanListsAreExact | src/shared/cidr.cc:552-599 | so it is with includes up to /30, or without excludes |
| SkippingWalk.ScanIsExact | src/shared/cidr.cc:566-599 | a jumping scan finds the least selected number if and only if it meets no number that loses one |
| SkippingWalk.RunRefinesExhaustive | src/shared/cidr.cc:566-599 | a jumping run equals testing every number in ascending order if and only if it loses nothing on its way |
| SkippingWalk.RunIsSound | src/shared/cidr.cc:566-599 | losing or not, a run is strictly increasing and stops at selected numbers only |
| SkippingWalk.ExhaustiveIsComplete | src/shared/cidr.cc:566-599 | the reference contains every selected number, once, in order |
| CidrList.BestMatch | src/shared/cidr.cc:669-684 | the longest block that covers the address, none exactly when no block does; also the exclude search at 735-749 |
| CidrList.CIDRList.Add | src/shared/cidr.cc:607-619 | appends a valid block unless it is already there, and says which |
| CidrList.CIDRList.Exclude | src/shared/cidr.cc:627-637 | the same for excludes |
| CidrList.CIDRList.FirstAddress | src/shared/cidr.cc:639-652 | the lowest network address as a host, invalid for an empty list |
| CidrList.CIDRList.LastAddress | src/shared/cidr.cc:654-667 | the highest host address, invalid for an empty list |
| CidrList.CIDRList.SkipToNextPool | src/shared/cidr.cc:686-703 | from outside every include to one before the next start, never backwards, never without a next pool |
| CidrList.CIDRList.SkipToExcludeEnd | src/shared/cidr.cc:705-725 | from an excluded address to the jump target, never backwards |
| CidrList.CIDRList.NextSimple | src/shared/cidr.cc:552-564 | restart at the first address, or step by one unless above the bound |
| CidrList.CIDRList.SkipFiltered | src/shared/cidr.cc:571-596 | an address is filtered out exactly when it is not selected, and then moved to one before the next one to test |
| CidrList.CIDRList.Next | src/shared/cidr.cc:566-599 | terminates, and moves the caller's address to where the scan arrives or invalidates it; the bound never exceeds the last address, also when the list has grown |
| CidrEnumeration.NextIsExact | src/shared/cidr.h:362-388 | one call finds the least selected address from its start on if and only if no jump on the way lands on a selected one |
| CidrEnumeration.EveryNextIsExact | src/shared/cidr.h:362-388 | every call from every address finds the least selected one if and only if no excluded address jumps onto a selected one |
| CidrEnumeration.NextIsSound | src/shared/cidr.h:362-388 | what a call returns is selected, not below its start and not above the bound |
| CidrEnumeration.NextOfApartList | src/shared/cidr.h:362-388 | when no small include starts at the wrong place inside an exclude, a call returns the least selected address above, or none exactly when there is none |
| CidrEnumeration.NextOfCleanList | src/shared/cidr.h:362-388 | on the clean lists a call returns the least selected address above, or none exactly when there is none |
| CidrEnumeration.AllSelectedLiesBetweenTheEnds | src/shared/cidr.cc:639-667 | all selected 32-bit addresses lie between the ends of the list |
| CidrEnumeration.FullRunIsExact | src/shared/cidr.h:362-388 | a full run visits exactly the selected addresses in ascending order if and only if no jump it takes lands on one |
| CidrEnumeration.FullRunOfApartList | src/shared/cidr.h:362-388 | and a full run visits exactly the selected addresses in ascending order |
| CidrEnumeration.FullRunOfCleanList | src/shared/cidr.h:362-388 | so it does on every list with includes up to /30, and on every list without excludes |
| CidrEnumeration.Enumerate | src/shared/cidr.h:30-44 | the loop of the class comment returns exactly the full run and ends |
| CidrEnumeration.AddressLost | src/shared/cidr.cc:705-725 | a concrete list on which a selected address is skipped |
| CidrEnumeration.OrderMatters | src/shared/cidr.cc:711-723 | a concrete pair of lists where only the order decides where a jump lands |
| AssetTable.LookupFindsKnown | src/db/inout/importcsv.cc:534-577 | a cell resolves exactly when it is the external or internal name of an element |
| AssetTable.ExternalNamesResolve | src/db/inout/importcsv.cc:546-571 | a sanitized external name is always found again |
| AssetImport.Importer.ResolveGroups | src/db/inout/importcsv.cc:864-899 | fails exactly when a named group is missing, otherwise gives the ids of all of them |
| AssetImport.Importer.ResolveLinks | src/db/inout/importcsv.cc:901-991 | fails exactly when a power source other than the row itself is missing, otherwise gives the links in order |
| AssetImport.Importer.ProcessRow | src/db/inout/importcsv.cc:654-1326 | imports the row exactly when it is acceptable, then changes the table as stated; otherwise changes nothing |
| AssetImport.Importer.Load | src/db/inout/importcsv.cc:1489-1516 | a run without repeated rows that no remaining row can extend; okRows are its reports, failRows exactly the other rows; at most as many passes as the file has lines |
| AssetImport.LogFits | src/db/inout/importcsv.cc:1491-1516 | no more rows are processed than the file has |
| AssetFixpoint.NamesAfter | src/db/inout/importcsv.cc:786-803 | after an insert-only run exactly the old names, the imported names and the invented ones resolve |
| AssetFixpoint.ExternalNamesAfter | src/db/asset_general.cc:246-255 | an external name is free exactly when it was free and no imported row has it |
| AssetFixpoint.RunStaysInClosed | src/db/inout/importcsv.cc:1489-1516 | a run never leaves any set that is closed under satisfiable references |
| AssetFixpoint.StuckIsClosed | src/db/inout/importcsv.cc:1489-1516 | when nothing more can be imported the imported rows are closed |
| AssetFixpoint.ImportIsLeastFixpoint | src/db/inout/importcsv.cc:1489-1516 | the imported rows of an insert-only file are the least closed set |
| AssetFixpoint.ImportOrderIsIrrelevant | src/db/inout/importcsv.cc:1489-1516 | the same rows in any order, retried in any order, import the same rows |
| AssetFixpoint.FinalNamesAgree | src/db/inout/importcsv.cc:1489-1516 | and the resulting tables resolve the same names |
| AssetFixpoint.NoElementUpdatedTwice | src/db/inout/importcsv.cc:709-724 | two updates of one import never write the same element |
| AssetFixpoint.KeysStayUnique | src/db/inout/importcsv.cc:737-746 | every import keeps ids, internal names and external names unique |
| AssetFixpoint.InsertKeepsKeys | src/db/asset_general.cc:354-363 | an insert does |
| AssetFixpoint.UpdateKeepsKeys | src/db/inout/importcsv.cc:737-746 | an update does, also when it renames the element |
| AssetFixpoint.ReportedAreUnwarned | src/db/inout/importcsv.cc:1493-1510 | okRows holds what the imports without a warning wrote, in the order of the imports |
| AssetFixpoint.WrittenPairsDiffer | src/db/inout/importcsv.cc:1493-1510 | no two imports of a run report the same pair |
| AssetFixpoint.WarnedRowsAreUnreported | src/db/inout/importcsv.cc:1493-1510 | an imported row is in okRows if and only if it raised no warning, and never in failRows |
| AssetFixpoint.WarnedRowExample | src/db/inout/importcsv.cc:1493-1510 | a concrete file whose only row is stored and mentioned in neither |
| AssetStored.AcceptsMeans | src/db/inout/importcsv.cc:654-1100 | a row is imported if and only if its location, logical asset, groups and other power sources name elements of the table, its name is free or its own, and its id names an element of its type and subtype that was not updated yet |
| AssetStored.UpdateAllowedMeans | src/db/inout/importcsv.cc:709-746 | exactly which element a row with an id may update |
| AssetStored.ParentIsStored | src/db/inout/importcsv.cc:786-803 | the parent is the element whose external, failing that internal, name is the location; 0 for an empty one |
| AssetStored.GroupsAreStored | src/db/inout/importcsv.cc:864-899 | the groups are exactly the elements that the group cells name |
| AssetStored.LinksAreStored | src/db/inout/importcsv.cc:901-991 | one link for each power source of a device that names another element, in column order, with the first four characters of its plug and input |
| AssetStored.RowIsStored | src/db/inout/importcsv.cc:1124-1300 | every field of the written element, for inserts and updates of every type |
| AssetStored.WarningMeans | src/db/inout/importcsv.cc:1209-1287 | the agent's error is the warning exactly when a row that wants to be active is stored nonactive |
| AssetStored.OnlyItsElementChanges | src/db/inout/importcsv.cc:1124-1300 | the table afterwards has the written element, every other one, and not the one it takes the place of |
| AssetStored.WrittenIsStored | src/db/inout/importcsv.cc:1489-1516 | so at every position of an import: what was written is what the cells say about the table of that moment |
| AssetStored.TableAfterImport | src/db/inout/importcsv.cc:1489-1516 | at the end every element is as it was last written, or as it was if no row wrote it |
| AssetStored.IdsAfterImport | src/db/inout/importcsv.cc:1320-1322 | the ids that may not be updated again are exactly those updated |
| AssetTree.CheckAndAdd | src/shared/data.cc:339-354 | keeps ids unique, refuses a new rackcontroller-0 |
| AssetTree.CollectChildren | src/shared/data.cc:356-374 | terminates, appends the walk of the subtree, refuses exactly when rackcontroller-0 is in it |
| AssetTree.DescendantsCollected | src/shared/data.cc:356-374 | the walk finds exactly the strict descendants |
| AssetTree.CollectedIsBottomUp | src/shared/data.cc:356-374 | each once, and every one after all of its own descendants |
| AssetTree.AboveIsALine | src/shared/data.cc:360-373 | two assets above a third are above one another |
| AssetTree.SiblingsAreApart | src/shared/data.cc:360-373 | the subtrees of siblings have nothing in common |
| AssetTree.BelowFromTheTop | src/shared/data.cc:360-373 | below an asset means a child, or below a child |
| AssetDelete.AssetDb.DeleteDcRoomRowRack | src/db/asset_general.cc:456-526 | refused for the last data center unless overridden; all or nothing |
| AssetDelete.AssetDb.DeleteGroup | src/db/asset_general.cc:529-554 | all or nothing, with the memberships of the group |
| AssetDelete.AssetDb.DeleteDevice | src/db/asset_general.cc:557-617 | all or nothing for the tables; the agent may fail after the commit |
| AssetDelete.AssetDb.DeleteByType | src/shared/data.cc:262-303 | reply and tables for every type, fault pattern, logical reference and number of data centers |
| AssetDelete.AssetDb.DeleteItem | src/shared/data.cc:227-314 | not found, rackcontroller-0 ignored, or the reply of the transaction; the tables change exactly when the row is gone; the agent failure is told exactly from the faults, the status and the type; a data center always remains |
| AssetDelete.AssetDb.DeleteAsset | src/shared/data.cc:398-427 | the reply of the transaction, never the agent's; a failed step changes nothing; a data center always remains |
| AssetDelete.ReplyMeans | src/db/asset_general.cc:456-617 | exactly when a row goes, and for which reason it stays: a reference by any row, the type, no other data center, a refused statement, the agent |
| AssetDelete.TablesAfter | src/db/asset_general.cc:456-617 | a device takes the links to it, its memberships and its monitor along, a container its memberships and monitor, a group the memberships in it; otherwise all four tables are unchanged |
| AssetDelete.AgentFailsAfterCommit | src/db/asset_general.cc:557-617 | a concrete device that is gone and reported as not deleted |
| AssetDelete.OverrideEmpties | src/db/asset_general.cc:456-526 | with the override the last data center is deleted |
| AssetTrace.RowsLeft | src/shared/data.cc:227-427 | after any sequence of transactions the rows are those at the start that none of them removed; ids stay unique |
| AssetTrace.LinksLeft | src/shared/data.cc:227-427 | after any sequence of transactions a power link is there exactly when it was at the start and the device it leads to was not deleted |
| AssetTrace.MembershipsLeft | src/shared/data.cc:227-427 | the same for memberships, unless the member or the group was deleted |
| AssetTrace.DatacenterRemains | src/db/asset_general.cc:456-617 | without the override a data center is there at one moment of a sequence if and only if at any other |
| AssetTrace.UntouchedStays | src/shared/data.cc:227-427 | an asset that no transaction names stays |
| AssetTrace.FailureChangesNothing | src/db/asset_general.cc:456-617 | a transaction changes the tables if and only if the row is gone after it |
| AssetTrace.OutcomeSeenAtTheEnd | src/shared/data.cc:535-556 | what was deleted could still be deleted at the end; what no sensor refers to and could be deleted at the end was deleted |
| AssetBatch.Examine | src/shared/data.cc:459-486 | refused exactly when rackcontroller-0 is below; otherwise tells whether something below, or something powered, is outside the request |
| AssetBatch.PlanOne | src/shared/data.cc:438-498 | an id is accepted exactly when everything below and everything it powers is requested and rackcontroller-0 is not involved; otherwise the reason is the first that applies |
| AssetBatch.DeletableMeans | src/shared/data.cc:459-486 | that condition is the one the collected children and links decide |
| AssetBatch.RefusedMeans | src/shared/data.cc:438-498 | not found, rackcontroller-0, a child outside, a powered device outside: exactly one of them holds for an id that is not deletable, none otherwise |
| AssetBatch.ReasonFound | src/shared/data.cc:459-486 | the collected children and links decide it |
| AssetBatch.Plan | src/shared/data.cc:435-499 | every requested id is either planned or answered with a failure |
| AssetBatch.Execute | src/shared/data.cc:535-554 | attempts exactly the planned ids without an answer, each once, in any order |
| AssetBatch.DeleteItems | src/shared/data.cc:429-556 | for any sort result: attempted are exactly the deletable ids, once each; every id is answered, an attempted one once, a refused one with its reason; the rows left are those not reported deleted; the batch is a trace, its outcomes are those of the final tables, and the parent relation stays acyclic |
| AssetBatch.OutcomesTold | src/shared/data.cc:535-554 | the replies of a batch are those that the tables at its end explain |
| AssetBatch.WithoutFaultsItGoes | src/shared/data.cc:535-554 | without faults an attempted asset of a known type that no sensor refers to is deleted, except when no other data center is left at the end |
| AssetBatch.RC0IsProtected | src/shared/data.cc:345-350 | neither rackcontroller-0 nor an asset above it is deletable |
| AssetBatch.SortedPlan | src/shared/data.cc:531-533 | any permutation plans the same assets, each once |
| AssetBatch.IsAnyParent | src/shared/data.cc:514-529 | terminates; true exactly when the item's parent is on the way up from the other asset inside the work list |
| AssetBatch.ChainIsUpward | src/shared/data.cc:514-529 | the upward chain is the asset itself and the assets of the work list above it |
| AssetBatch.ComparatorIsNotStrict | src/shared/data.cc:501-533 | an asset sorts before itself if and only if its parent is in the work list; then its siblings sort both ways |
| AssetBatch.FeederGoesAfterDevice | src/db/asset_general.cc:557-617 | a concrete power source that cannot go alone and can once the device is deleted |
| AssetHistory.Serve | src/shared/data.cc:227-556 | one request, single or batch, is answered and is a trace |
| AssetHistory.ServeAll | src/shared/data.cc:227-556 | so is any sequence of them: every request is answered on the tables it met; at every moment ids are unique, rackcontroller-0 is there if it was, and without the override a data center is there if and only if one was at the start |
| AssetHistory.EveryMoment | src/shared/data.cc:227-556 | the three hold of every state of every trace that never names rackcontroller-0 |
| SseStream.InDatacenterMeansMember | src/web/src/sse.cc:427-441 | the parent loop finds the data center exactly when it is among the parents |
| SseStream.Sse.IsAssetInDatacenter | src/web/src/sse.cc:427-441 | terminates with that answer |
| SseStream.Sse.ChangeAsset | src/web/src/sse.cc:253-390 | the tracked sets and the message after an asset event |
| SseStream.Sse.ShouldPublishAlert | src/web/src/sse.cc:443-467 | true exactly for a state other than the remembered one, which it replaces |
| SseStream.Sse.ChangeAlert | src/web/src/sse.cc:223-251 | an alarm exactly for an eligible alert with a new state |
| SseStream.Sse.ChangeMessage | src/web/src/sse.cc:393-425 | passes a message unless it belongs to an untracked asset |
| SseStream.StepKeepsDisjoint | src/web/src/sse.cc:329-359 | the tracked sets stay disjoint if and only if no creation puts a name into one set while it is in the other |
| SseStream.RunKeepsDisjoint | src/web/src/sse.cc:253-390 | over whole runs that create untracked names only they are disjoint at every moment |
| SseStream.ChangesAreTracked | src/web/src/sse.cc:362-387 | a payload is sent only for an asset that is tracked then |
| SseStream.RemovalUntracks | src/web/src/sse.cc:263-308 | after a removal the asset is untracked if and only if it was not in both sets |
| SseStream.UntrackedIsSilent | src/web/src/sse.cc:223-231 | nothing about an untracked asset is sent, and it stays untracked, unless it is created |
| SseStream.SilentAfterRemoval | src/web/src/sse.cc:414-422 | over whole runs: after a removal nothing about the asset is sent until it is created again |
| SseStream.RemovedAssetComesBack | src/web/src/sse.cc:329-340 | a concrete run with a repeated creation in which it is |
| SseStream.PublishedIsDestuttered | src/web/src/sse.cc:443-467 | for every run and rule the published states are the eligible ones without repetitions |
| SseStream.DestutteredHasNoRepeats | src/web/src/sse.cc:235-243 | which have no equal neighbours and lose no change |
| SseStream.NoRepeatedAlarm | src/web/src/sse.cc:235-243 | so no rule publishes the same state twice in a row |
| SseDelivery.InsideAmong | src/web/src/sse.cc:427-441 | the parent loop finds the data center exactly when a parent is it and none before is called not found |
| SseDelivery.ChangeIsSent | src/web/src/sse.cc:285-387 | an update or inventory of an asset of the data center sends its payload and changes nothing |
| SseDelivery.PlacedIsSent | src/web/src/sse.cc:291-322 | of an unlocated one: inside, it joins and its payload is sent; outside, it is removed |
| SseDelivery.CreationIsSent | src/web/src/sse.cc:324-359 | a creation inside, or of an unlocated device, tracks the asset and sends its payload; any other does nothing |
| SseDelivery.DeleteIsSent | src/web/src/sse.cc:263-283 | a delete of a tracked asset sends exactly its removal and untracks it from the set that had it |
| SseDelivery.AlertIsSent | src/web/src/sse.cc:223-251 | an eligible alert with a new state is sent under its own rule with its own payload and remembered |
| SseDelivery.GenericIsSent | src/web/src/sse.cc:393-425 | a message without asset, or of an asset of the data center, passes with its topic and payload |
| SseDelivery.AssetsOfARun | src/web/src/sse.cc:253-390 | over whole runs the assets of the data center are those that were or arrived and were not deleted since |
| SseDelivery.FollowedFromArrivalToDelete | src/web/src/sse.cc:223-425 | over whole runs: from its arrival to its deletion every change, new alert state and message of an asset is sent, and its deletion too |
| CsvTable.StripIsIdempotent | src/shared/csv.cc:35-46 | stripping a stripped title changes nothing |
| CsvTable.StripOfOne | src/shared/csv.cc:35-46 | letters are kept in lower case, digits, underscore and dot are kept, everything else goes |
| CsvTable.StripJoins | src/shared/csv.cc:35-46 | stripping works character by character |
| CsvTable.StripIgnoresCase | src/shared/csv.cc:35-46 | titles that differ in letter case only are the same title |
| CsvTable.CsvMap.Deserialize | src/shared/csv.cc:48-66 | fails exactly on an empty table or two titles that strip to the same; otherwise indexes every column |
| CsvTable.GetFindsTheColumn | src/shared/csv.cc:68-89 | get returns exactly the cell of the column whose stripped title matches, and fails exactly when there is none |
| CsvTable.NumberedTitles | src/shared/csv.cc:225-232 | numbered titles survive stripping and differ for different numbers |
| CsvTable.DecimalReadsBack | src/shared/csv.cc:225-232 | the number in a title reads back as the number, without leading zeros |
| JsonColumns.Rows.ProcessPowers | src/shared/csv.cc:209-246 | fails exactly without an array or a src_name; otherwise appends the columns of all power sources, rows equally long |
| JsonColumns.Rows.ProcessGroups | src/shared/csv.cc:249-270 | the same for groups and their names |
| JsonColumns.Rows.ProcessList | src/shared/csv.cc:273-343 | the same for the four plain lists |
| JsonColumns.Rows.ProcessOutlet | src/shared/csv.cc:345-366 | fails exactly when it is no array, or an attribute lacks one of its three keys or has a read_only mark that is no truth value |
| JsonColumns.Rows.ProcessOutlets | src/shared/csv.cc:369-378 | the outlets one after the other |
| JsonColumns.Rows.ProcessExtArray | src/shared/csv.cc:386-407 | fails exactly when an element does not have two members; otherwise one column for each that is not the read_only mark |
| JsonColumns.Rows.ReadMember | src/shared/csv.cc:423-478 | one member becomes its columns, or fails |
| JsonColumns.Rows.ReadSi | src/shared/csv.cc:417-479 | terminates on every tree and appends the columns of all members; title and value rows stay equally long also on failure |
| JsonReadBack.CsvMapFromJson | src/shared/csv.cc:481-493 | succeeds exactly when the tree flattens and no two titles strip to the same |
| JsonReadBack.TableHoldsTheCells | src/shared/csv.cc:481-493 | the value row has exactly the flattened cells under their stripped titles |
| JsonReadBack.ReadNumbered | src/db/inout/importcsv.cc:866-881 | the numbered loop ends and reads up to the first missing number |
| JsonReadBack.ReadPowers | src/db/inout/importcsv.cc:903-980 | the same for power sources, each with the sockets of its own number |
| JsonTitles.TitlesDiffer | src/shared/csv.cc:209-343 | two numbered titles are the same only for the same prefix and number |
| JsonTitles.TitlesOfAsset | src/shared/csv.cc:417-479 | a numbered title is made exactly by a list that has the element, nested or not, or by a member of that very name, nested or not |
| JsonContent.ContentIsFlattened | src/shared/csv.cc:209-479 | a column is made if and only if the document says so: an element of a numbered list, an attribute of an outlet or of ext, or a member outside the twelve reserved names under its own name |
| JsonContent.FlattensExactly | src/shared/csv.cc:209-479 | an asset flattens if and only if the first member of every reserved name has its form, nested attributes included |
| JsonContent.InformationalMembersAreLeftOut | src/shared/csv.cc:434-446 | the four informational members make no column |
| JsonReadBack.TableHoldsTheContent | src/shared/csv.cc:481-493 | the table has exactly the content of the asset, each cell under its stripped title |
| JsonReadBack.NumberedCells | src/shared/csv.cc:417-493 | a numbered cell is in the table exactly when the asset's list has the element or a stray member makes it |
| JsonReadBack.ListedCell | src/shared/csv.cc:209-343 | and holds the text of that element |
| JsonReadBack.NumberedReadBack | src/db/inout/importcsv.cc:866-881 | a numbered loop gives back the list in order if and only if no stray member makes the next number |
| JsonReadBack.GroupsReadBack | src/db/inout/importcsv.cc:864-899 | gives back the groups list in order if and only if no member is called group.N with the next number, and no nested list has such an element |
| JsonReadBack.ListsReadBack | src/shared/csv.cc:273-343 | the same for the four plain lists and their texts |
| JsonReadBack.PlainMembersReadBack | src/shared/csv.cc:474-477 | every member outside the twelve reserved names is one cell under its stripped name |
| JsonReadBack.NestedColumns | src/shared/csv.cc:408-411 | nested attributes flatten whenever the whole does, and their columns are cells of the same row |
| JsonReadBack.OutletsReadBack | src/shared/csv.cc:345-378 | every attribute of every outlet is one cell named after both, with its value |
| JsonReadBack.AttributesReadBack | src/shared/csv.cc:386-407 | in the array form of ext every attribute but the read_only marks is one cell under its stripped name |
| JsonReadBack.PowersReadBack | src/db/inout/importcsv.cc:901-991 | gives back the powers list in order with each socket at its own source, if and only if no stray member makes the next number or a socket the list left out |
| JsonReadBack.TidyReadBack | src/db/inout/importcsv.cc:864-991 | on an asset without such names and nested lists everything read is what the asset says |
| JsonReadBack.ReadAsset | src/shared/csv.cc:481-493 | from the JSON asset through flatten, index and the numbered loops: accepted exactly when it flattens to distinct titles, and then, if tidy, read back unchanged |
| JsonReadBack.StrayGroupIsRead | src/db/inout/importcsv.cc:866-881 | a concrete accepted asset with two groups whose member group.3 is read as a third |
| ScaledInt.Refine | src/shared/utils.cc:283-291 | appends the digits, or fails exactly when they do not fit |
| ScaledInt.Rescale | src/shared/utils.cc:274-298 | exact toward a finer scale, failing exactly when abs(v) * 10^(k-1) reaches 214748364; truncated toward zero toward a coarser one |
| ScaledInt.TruncDivMeans | src/shared/utils.cc:293-297 | the coarser value lies toward zero, less than one unit away |
| ScaledInt.AddOverflow | src/shared/utils.cc:265-272 | the sum, failing exactly when it leaves the 32-bit range |
| ScaledInt.AddThenCheck | src/shared/utils.cc:265-272 | as written, adding in 32 bits first: always accepts, with the narrowed sum |
| ScaledInt.AddAsWritten | src/shared/utils.cc:300-324 | as written: fails exactly when an operand does not fit, otherwise the narrowed sum |
| ScaledInt.CheckAfterWrappingIsBlind | src/shared/utils.cc:265-272 | as written, a sum is accepted and wrong if and only if both operands fit and the sum does not, and accepted and right if and only if the checked addition succeeds |
| ScaledInt.WrappedSumAccepted | src/shared/utils.cc:265-272 | INT32_MAX plus 1 is accepted as INT32_MIN |
| ScaledInt.Add | src/shared/utils.cc:300-324 | succeeds exactly when both operands and the sum fit, with the finer scale and the exact sum |
| ScaledInt.AddIsExact | src/shared/utils.cc:300-324 | counted in any finer unit the result is both operands together |
| ScaledInt.AddIsCommutative | src/shared/utils.cc:300-324 | the operands may be exchanged |
| ScaledInt.CoarseningComposes | src/shared/utils.cc:293-297 | coarsening in two steps is coarsening in one |
| ScaledInt.RefiningIsUndone | src/shared/utils.cc:283-297 | refining and coarsening back is the identity |
| DecimalText.Stobiosf | src/shared/utilspp.cc:51-126 | fails exactly when the whole part or the sum is too large; otherwise the sum narrowed to 32 bits, with minus the number of significant fraction digits as scale |
| DecimalText.SumIsMeant | src/shared/utilspp.cc:83-115 | the sum is the number in the text if and only if it is not a "-0" with a fraction |
| DecimalText.ResultIsExact | src/shared/utilspp.cc:112-125 | a result is exact if and only if moreover the sum is not below the range, which is not checked |
| DecimalText.ResultIsReduced | src/shared/utilspp.cc:91-100 | a result with a fraction does not end in the digit 0 |
| DecimalText.PartsOfText | src/shared/utilspp.cc:68-98 | sign, whole part and fraction are found in every text put together from them |
| DecimalText.FractionCounts | src/shared/utilspp.cc:91-98 | only zeros are stripped, so the digits keep their value |
| DecimalText.SumCountsAllDigits | src/shared/utilspp.cc:51-126 | counted in units of the last digit written, the sum is the signed number that all digits make up, if and only if the text is not a "-0" with a fraction |
| DecimalText.SignLost | src/shared/utilspp.cc:83-84 | "-0.5" is read as 5 tenths |
| DecimalText.SumBelowRange | src/shared/utilspp.cc:112-125 | the concrete input "-300000000.5", read as 1294967291 tenths |
| Escaping.Escape | src/shared/utilspp.cc:138-171 | the loop, with its early exits and its read past a dangling backslash, writes the rewritten text |
| Escaping.EscapedIsGuarded | src/shared/utilspp.cc:155-168 | for every input the result has no bare special character |
| Escaping.EscapeIsIdempotent | src/shared/utilspp.cc:138-171 | escaping twice is escaping once, for all inputs and character sets |
| Escaping.EscapeKeepsMeaning | src/shared/utilspp.cc:157-159 | unescaping gives the same text as before, if and only if the loop does not meet a dangling backslash |
| Escaping.EscapeAddsOneEach | src/shared/utilspp.cc:138-171 | one backslash is added for each bare special character, one more character for a dangling backslash in the loop |
| Escaping.LeftAlone | src/shared/utilspp.cc:138-153 | a text without special characters is unchanged, and any longer one when the backslash is special |
| Escaping.DanglingBackslashLost | src/shared/utilspp.cc:157-159 | the concrete text of a percent sign and a backslash, where a NUL replaces the backslash |
| Escaping.SqlEscape | src/shared/utilspp.cc:173-175 | the same function for the two SQL wildcards |
| UpsStatus.SingleStatusToInt | src/shared/upsstatus.cc:50-65 | the bit of the first table name the word begins with |
| UpsStatus.CutWord | src/shared/upsstatus.cc:77-85 | ends a word in place and leaves the rest of the buffer untouched |
| UpsStatus.ToInt | src/shared/upsstatus.cc:67-88 | terminates with the OR over all words |
| UpsStatus.ToString | src/shared/upsstatus.cc:95-109 | the names of the set bits in table order |
| UpsStatus.ParseJoins | src/shared/upsstatus.cc:67-88 | for all texts, joining two with a space ORs their bitmaps |
| UpsStatus.WordMeans | src/shared/upsstatus.cc:50-65 | for every prefix-free table a single word sets exactly the bit of the name it begins with, letter case aside; an unknown word sets none |
| UpsStatus.ParseIgnoresCase | src/shared/upsstatus.cc:50-88 | texts that differ in letter case only have the same bitmap |
| UpsStatus.PrintParse | src/shared/upsstatus.cc:50-109 | for every prefix-free table, printing and parsing keeps exactly the bits that have names |
| UpsStatus.StatusWordsArePrefixFree | src/shared/upsstatus.cc:40-46 | no status word is a prefix of another, letter case aside |
| UpsStatus.StatusWords | src/shared/upsstatus.cc:40-46 | each of the fourteen words, written out, is read as its bit, and its bit alone is printed as the word |
| UpsStatus.StatusPrintParse | src/shared/upsstatus.cc:67-109 | for the status words, the low 14 bits come back |
| UpsStatus.StatusParsePrintParse | src/shared/upsstatus.cc:67-109 | parsing, printing and parsing again is parsing once, for every text |

## Left out

- CidrList.CIDRList.Add: IPv6 networks and networks with host bits set, which the source also takes; the list holds normalised IPv4 blocks. IPv6 addresses passed to `Next` are covered.
- CidrList.CIDRList.Exclude: the same.
- libcidr, the database server, cxxtools, iconv, libmagic, malamute and the regular expressions: only their specified results are used, and whether a JSON node reads as a truth value is an input (`isBool`). Parsing addresses from text is not part of this model.
- A database read that fails, and an exception other than the row rejection leaving `process_row`; a write that fails is modelled in the deletes only.
- Checks of a row's own cells (type, status, dates, numbers) are one flag, `cellsOk`; extended attributes are not stored. Which columns count as unused is not tracked.
- AssetImport.Importer.ProcessRow: the checks of a row's own cells are one flag, extended attributes and the aliases of rack controllers are not modelled; the external agents are reduced to the warning text they cause; deactivation before an update is taken to succeed, and an update keeps the internal name.
- Recognising rackcontroller-0 by row number, disabled at `src/db/inout/importcsv.cc:1481-1484`.
- AssetBatch.DeleteItems: that the sort terminates and permutes is taken as given, since the comparator breaks its contract; no claim on deletion order is made. The power links of the work list are looked up instead of copied into it.
- AssetTree.CollectChildren: a cyclic parent relation, on which the original recurses forever.
- SseStream.Sse.ChangeAsset: loading the initial sets, the token check and the JSON text of messages; the database answers are inputs.
- ScaledInt.AddOverflow: the sum is the mathematical one, as the check intends; the source adds in 32 bits first, which C++ leaves undefined when it overflows. `AddThenCheck` models that with wrap-around.
- ScaledInt.Add: the same, with `AddAsWritten` beside it.
- UpsStatus.ToInt: texts with an embedded NUL, which the original cuts there.
- DecimalText.Stobiosf: exponents, hexadecimal text, a plus sign, surrounding blanks and more than nine significant fraction digits (64-bit overflow of the sum).
- Date and double clean-up, CSV and JSON export, licensing, network interfaces, computed rack values, logging and translations.
