# Verification of zas

This project models the parts of zas, a network-inventory system, where stored rows depend on each
other, and proves in Dafny what those parts keep. The database is explicit state: maps and sequences of
rows, held by classes whose methods follow the services step by step. Every such method is proved
against a function or predicate on table values; the main results are lemmas about those, over all
inputs and over whole runs.

| module | what it models |
|---|---|
| `CidrBlocks`, `PrefixValidation`, `IpAllocation`, `RangeScan` | CIDR blocks (section 3.1 of RFC 4632) as aligned power-of-two intervals; which prefixes may join a site and VRF; handing out addresses (a /31 has two hosts, section 2.1 of RFC 3021); splitting a range into blocks and scanning it |
| `RackOccupancy`, `RackElevation` | the cached index of occupied rack units, its writers, the allocator that reads it, and the elevation view that computes occupancy a second time |
| `SerialModel`, `InventorySync`, `InventoryOwnership`, `SerialProtocol`, `TransceiverOwnership`, `SerialRuns`, `DecommissionOutcome`, `ImportOutcome`, `SerialStore` | who owns a serial number: validated writes, inventory and transceiver synchronisation, spreadsheet import, decommissioning; specifications first, the imperative services in `SerialStore` |
| `ConfigHistory`, `VisualDiff` | the change-only history of configurations and the side-by-side diff |
| `AreaTree`, `Topology` | the nested tree of areas over an arbitrary parent relation; stored neighbours against observed ones |
| `Text`, `Sets`, `Options` | string operations, a fact about sets, `Option` |

`dafny verify dfyconfig.toml` checks the whole project.

## Reading guide

- **Serial numbers.** `SerialRuns.RunKeepsSerialsUnique` is the global safety theorem: over every run of
  validated writes, deletions, imports, decommissions and synchronisations, with any steps failing and
  being rolled back, no valid serial number is held twice in modules and storage, ignoring case. Its one
  hypothesis about the environment, that no line of a reported inventory is itself named like a
  transceiver module, cannot be dropped: `InventoryOwnership.InventoryKeepsSerialsUnique` says exactly
  when one report keeps the numbers unique, and `InventoryOwnership.TransceiverNameBreaksUniqueness`
  is a concrete report that does not. Each step that can fail has its exact condition on the tables before
  it: `DecommissionOutcome.DecommissionSucceedsExactly`, `ImportOutcome.ImportSucceedsExactly`,
  `TransceiverOwnership.TransceiversRaiseExactly`.
- **Prefixes.** `PrefixValidation.PrefixStore.Validate` equates a loop, an ancestor walk and an order of
  checks with a declarative rule. The branch for a partial overlap is an `assert false` there: it is dead,
  because of `CidrBlocks.OverlapIsNesting`. The message of that service asks for the most specific
  containing prefix as parent; the code accepts any valid one, and the model follows the code.
- **Racks.** `RackOccupancy.RunKeepsIndex` is the index invariant. The allocator counts stack members
  but not the height of the type; `RackOccupancy.ChoicesStayExclusiveExactly` says exactly when whatever it
  may choose keeps the devices apart, and `RackOccupancy.TallTypesMayOverlap` is a rack where it does not.
  `RackElevation.ElevationAgreesExactly` says exactly when the elevation agrees with the index;
  `RackElevation.HalfUnitIsNotDrawn` is a rack where it does not.
- **Configurations.** `ConfigHistory.NormalizeIdempotent` is an equivalence: normalising twice is
  normalising once exactly for texts that do not open with an indented volatile marker, and
  `ConfigHistory.IndentedMarkerIsUnstable` is such a text.

## Model

| member | source | states |
|---|---|---|
| `CidrBlocks.ParseStrictExactly` | `ipam/services/prefix_validation_service.py:40-45` | strict parsing accepts exactly an address of the family that is a multiple of the block size, and keeps address and length |
| `CidrBlocks.Laminar` | `ipam/services/prefix_validation_service.py:100-115` | any two strictly parsed blocks of one family are nested or share no address |
| `CidrBlocks.OverlapIsNesting` | `ipam/services/prefix_validation_service.py:100-115` | the end-point test finds exactly the pairs that share an address, and those are exactly the nested pairs, so the partial-overlap error cannot occur |
| `CidrBlocks.InsideIsLonger` | `ipam/services/prefix_validation_service.py:71-76` | strict nesting of parsed blocks is nesting with a longer prefix |
| `CidrBlocks.SameAddresses` | `ipam/services/prefix_validation_service.py:71-76` | the end-point test of containment is inclusion of all addresses, and blocks with the same addresses are the same |
| `CidrBlocks.UsableHosts` | `network/services/discover_network.py:106-109` | the usable hosts of a block are all its addresses, minus the first and (IPv4) the last when it has four or more; never none |
| `PrefixValidation.PrefixStore.HasAncestor` | `ipam/services/prefix_validation_service.py:125-133` | the walk answers true exactly when some number of parent links reaches a candidate, given that the links end or hit one |
| `PrefixValidation.PrefixStore.ValidateParent` | `ipam/services/prefix_validation_service.py:47-78` | adds exactly the first of: other site, other VRF, malformed parent, and, when nothing else is wrong, outside the parent or equal to it; no error exactly when the parent shares site and VRF, parses and strictly contains the block |
| `PrefixValidation.PrefixStore.ValidateOverlaps` | `ipam/services/prefix_validation_service.py:80-123` | reports exactly an equal stored block, or else a containing one when no parent is given; with a checked parent the walk succeeds |
| `PrefixValidation.PrefixStore.Validate` | `ipam/services/prefix_validation_service.py:15-38` | accepts exactly the acceptable prefixes, whatever the order of stored rows; the report of a refused one is exact, error by error: first those of the draft alone, else those of VRF and parent, else those of the other prefixes |
| `PrefixValidation.AcceptableByAddresses` | `ipam/services/prefix_validation_service.py:71-123` | in terms of addresses and columns: accepted exactly when the block lies strictly within its parent, no prefix of the site and VRF has the same addresses, and without a parent none has them all |
| `PrefixValidation.PrefixStore.Create` | `ipam/services/prefix_validation_service.py:15-38` | the row with the columns of the draft is stored exactly when it is acceptable, otherwise nothing changes |
| `PrefixValidation.PrefixStore.Delete` | `ipam/models/prefix.py:32-40` | removes one row, clears the links of its children and touches nothing else |
| `PrefixValidation.ApplyKeepsForest` | `ipam/services/prefix_validation_service.py:47-78` | one create or delete keeps: every link goes to a strictly larger block of the same site and VRF, no block twice |
| `PrefixValidation.RunKeepsForest` | `ipam/services/prefix_validation_service.py:15-133` | the same after every run of creates and deletes from empty tables |
| `PrefixValidation.RunKeepsVrfs` | `ipam/services/prefix_validation_service.py:28-29` | after every run each prefix has a VRF of its own site, or none |
| `PrefixValidation.AncestorsAreWider` | `ipam/services/prefix_validation_service.py:125-133` | n links up is a block of the same site and VRF whose prefix is at least n shorter |
| `PrefixValidation.ParentsAreAcyclic` | `ipam/services/prefix_validation_service.py:125-133` | after every run no prefix is its own ancestor, and a walk takes no more links than the prefix length |
| `PrefixValidation.WalkEnds` | `ipam/services/prefix_validation_service.py:129-133` | in such tables the ancestor loop ends, whatever it looks for |
| `IpAllocation.FirstFree` | `ipam/services/ip_allocation_service.py:19-21` | the least address of the interval that is not used, or none when all are |
| `IpAllocation.NextAvailableIp` | `ipam/services/ip_allocation_service.py:9-23` | the least usable host that no row but a deprecated one holds; it fails exactly when all are held, or when the prefix does not parse |
| `IpAllocation.AllocationByRows` | `ipam/services/ip_allocation_service.py:9-23` | on the rows: the address given is usable and held by no active, DHCP or reserved row of the prefix, every lower usable one is; none is given exactly when all are held |
| `IpAllocation.AllocationsInOrder` | `ipam/services/ip_allocation_service.py:9-23` | n rounds of allocate and store yield the first n free hosts in ascending order, or fail when there are fewer |
| `IpAllocation.EmptyPrefixFillsUp` | `ipam/services/ip_allocation_service.py:9-23` | from an empty prefix n usable hosts are handed out once each in ascending order and the next request fails |
| `RangeScan.NextBlock` | `network/tasks.py:159` | the block starts at the cursor, is aligned, fits, and no larger aligned block at the cursor does |
| `RangeScan.Summarize` | `network/tasks.py:146-160` | the blocks of a range are consecutive, cover it exactly, each is the largest that is aligned at its start and fits into the rest, and there are at most 2 * bits (64 for IPv4) |
| `RangeScan.BlockOfAddress` | `network/tasks.py:159` | every address of the range lies in exactly one block |
| `RangeScan.OmittedAddresses` | `network/services/discover_network.py:106-109` | inside the range exactly the first and (IPv4) last address of each block of four or more are left out |
| `RangeScan.PlanScan` | `network/services/discover_network.py:104-116` | the addresses scanned are ascending, without repeats, and exactly the usable hosts of the blocks |
| `RangeScan.RunJob` | `network/tasks.py:164-172` | all blocks are processed, the alive count is the number of distinct addresses found; a scanned address that answers is a candidate seen now, every other candidate keeps its time |
| `RackOccupancy.UntouchedStaysIndexed` | `dcim/models/device.py:396-403` | a rack whose devices did not change keeps a correct index without being recomputed |
| `RackOccupancy.StepKeepsIndex` | `dcim/models/device.py:387-403` | every save, delete, stack synchronisation and assignment leaves each index equal, as a multiset, to the recomputed occupancy |
| `RackOccupancy.RunKeepsIndex` | `dcim/models/device.py:510-542` | the same over every run of these steps, failed ones included |
| `RackOccupancy.IndexedUnits` | `dcim/models/device.py:522-542` | a unit is listed exactly when a device of the rack takes it |
| `RackOccupancy.UnitsByColumns` | `dcim/models/device.py:522-538` | the units of a device by its columns: from the whole part of its position on, the whole part of its type height but at least one, once per member of a stack |
| `RackOccupancy.AssignedUnits` | `dcim/models/device.py:529-538` | a newly assigned stack takes its type height times its members |
| `RackOccupancy.NewDeviceFits` | `network/services/auto_assignment_service.py:106-118` | a new device leaves the devices of its rack pairwise apart exactly when its whole interval was clear in the index |
| `RackOccupancy.AssignmentIsExclusive` | `network/services/auto_assignment_service.py:78-79` | after the window check, they stay apart exactly when the units beyond the checked ones are clear as well |
| `RackOccupancy.AssignmentKeepsDisjoint` | `network/services/auto_assignment_service.py:78-79` | for types of one whole unit or less the window check suffices |
| `RackOccupancy.ChoicesStayExclusiveExactly` | `network/services/auto_assignment_service.py:501-523` | before the call: every position that may be chosen keeps the rack exclusive exactly when each window that may be chosen has room for the height of the type |
| `RackOccupancy.AfterAssignIsAssigned` | `network/services/auto_assignment_service.py:106-157` | from tables in order the device can be stored, with an index extended by its units |
| `RackOccupancy.RunKeepsMembers` | `network/services/auto_assignment_service.py:139-157` | over every run of all steps stack members belong to stored devices |
| `RackOccupancy.DeletionStaysExclusive` | `dcim/models/device.py:396-403` | deleting a device keeps every rack exclusive |
| `RackOccupancy.AssignmentRunStaysDisjoint` | `network/services/auto_assignment_service.py:106-157` | over every run of such assignments and of deletions, intervals in every rack stay pairwise disjoint |
| `RackOccupancy.TallTypesMayOverlap` | `network/services/auto_assignment_service.py:78-79` | a rack, a two-unit type and a requested unit for which the only position that may be chosen overlaps a neighbour |
| `RackOccupancy.RackStore.constructor` | `dcim/models/device.py:510-542` | the empty tables have correct indexes and no stray stack members |
| `RackOccupancy.RackStore.AppendUnits` | `dcim/models/device.py:537-538` | each unit of the interval is added once |
| `RackOccupancy.RackStore.UpdateRack` | `dcim/models/device.py:510-542` | the index of one rack counts, for each unit, the devices that take it; all else is unchanged |
| `RackOccupancy.RackStore.UpdateRacks` | `dcim/models/device.py:392-394` | the indexes of the given racks are recomputed; all else is unchanged |
| `RackOccupancy.RackStore.Save` | `dcim/models/device.py:387-394` | the row is stored and the racks before and after are recomputed |
| `RackOccupancy.RackStore.Delete` | `dcim/models/device.py:396-403` | the device and its stack members are gone and its rack is recomputed |
| `RackOccupancy.RackStore.ApplyStackMembers` | `network/services/sync_service.py:717-745` | the members of the device become the reported numbers (unless none is reported), those of other devices stay; the flag follows the number of reports; its rack is recomputed |
| `RackOccupancy.RackStore.SelectPosition` | `network/services/auto_assignment_service.py:501-523` | the choice is a free window; the requested unit is kept when free, otherwise the window lies within 1..height; it fails exactly when neither exists, that is when no position may be chosen |
| `RackOccupancy.RackStore.Assign` | `network/services/auto_assignment_service.py:106-157` | places the device exactly when some position may be chosen, the lookups succeed and the switch numbers are distinct; its position is one that may be chosen, its row and its stack members are as given, every index stays correct; a failure changes nothing |
| `RackElevation.LastDrawing` | `core/organization_views.py:229-254` | the later of two overlapping devices owns a unit |
| `RackElevation.BuildLayout` | `core/organization_views.py:224-271` | the units height..1 are listed once each; a row is occupied exactly when a device draws it, and shows the last such device, with the units from its start up to here and its stack, exactly when this is the highest unit that device draws; no devices or no height, no rows |
| `RackElevation.ViewOfOne` | `core/organization_views.py:230-254` | the view draws a device at a unit of the rack exactly when the index formula counts it there and the device starts at unit 1 or above and has a type of at least one whole unit, a recorded height of 0 counting as one |
| `RackElevation.ElevationAgreesExactly` | `core/organization_views.py:224-271` | the elevation marks exactly the units of the cached index, over the whole rack, exactly when each unit that some device takes is taken by a drawable one |
| `RackElevation.ElevationMatchesIndex` | `core/organization_views.py:257-270` | when every positioned device is drawable, the elevation marks exactly the units of the cached index |
| `RackElevation.HalfUnitIsNotDrawn` | `core/organization_views.py:235-247` | tables with a correct index that lists unit 3, while the elevation of the same rack shows it free |
| `RackElevation.ExclusiveIsDrawnApart` | `core/organization_views.py:247-254` | in a rack whose devices take no unit twice the view draws no unit twice |
| `RackElevation.HeadsOneRow` | `core/organization_views.py:258-263` | a drawn device heads the row of its highest unit, with its drawn height, and no other row |
| `RackElevation.ShowsEachDeviceOnce` | `core/organization_views.py:257-270` | in a rack drawn apart the row of a unit shows exactly the device whose highest drawn unit it is, if any |
| `RackElevation.HeadHeightsSumToOccupied` | `core/organization_views.py:257-270` | head heights add up to the number of occupied rows |
| `SerialModel.NormalizeSerialIdempotent` | `services/validation_service.py:12-21` | normalising twice is normalising once, and storing either form keeps the key |
| `SerialModel.NormalizeSerialExactly` | `services/validation_service.py:12-21` | a column holds a number exactly when its trimmed text is not empty, "n", "n/a", "unknown" or begins with "unknown:", in any mixture of cases; the number is the trimmed text |
| `SerialModel.SameKeyExactly` | `services/validation_service.py:12-21` | two columns hold the same number exactly when both hold one and the trimmed texts agree letter by letter in any case |
| `SerialModel.IExactByLetters` | `services/validation_service.py:52-60` | the lookup compares the stored column with the number letter by letter in any case |
| `SerialModel.SameFoldIsNormal` | `services/validation_service.py:18-20` | being a valid serial number does not depend on case |
| `SerialModel.LookupFindsKey` | `services/validation_service.py:52-54` | on clean columns the case-insensitive lookup finds exactly the holders of the valid number |
| `SerialModel.SaveModuleKeepsSerials` | `services/validation_service.py:43-77` | an accepted module write, through a form or the API, keeps every valid number held once |
| `SerialModel.ModuleWriteAcceptedExactly` | `services/validation_service.py:43-77` | on clean tables a module write is accepted exactly when no module or item but the row itself holds its number |
| `SerialModel.OwnNumberIsAccepted` | `services/validation_service.py:52-53` | a module saved again with its own number, in any case, is accepted |
| `SerialModel.SaveModuleWrites` | `services/validation_service.py:43-77` | an accepted module write changes one row, to the given columns with the trimmed number; only the API keeps a placeholder, trimmed |
| `SerialModel.SaveItemKeepsSerials` | `services/validation_service.py:80-106` | an accepted storage write keeps every valid number held once and the unique columns unique |
| `SerialModel.ItemWriteAcceptedExactly` | `services/validation_service.py:80-106` | on clean tables an item write is accepted exactly when its columns are fine, no module or item but the row itself holds its number, and no other item its inventory number |
| `InventorySync.WinnersAreElected` | `network/services/sync_service.py:309-330` | one winner per distinct valid serial number, ignoring case: the first entry with the greatest (score, name length) |
| `InventorySync.BetterIsPreferred` | `network/services/sync_service.py:299-307` | of two lines with one number the one whose name starts with "switch " is preferred, else the one that mentions no "stack" in name or description, else the one with the longer name |
| `InventorySync.WinnersAreBest` | `network/services/sync_service.py:309-330` | in terms of the lines: each winner is the first of the most preferred lines that report its number, each reported number has a winner, and the names without a number are those of the other lines |
| `InventoryOwnership.WinnersTaken` | `network/services/sync_service.py:332-347` | from unique numbers the upserts never find two rows; each winner ends with one row and its number leaves everybody else |
| `InventoryOwnership.InventoryTakesOver` | `network/services/sync_service.py:294-365` | after a report with a valid number, the device's serial-bearing modules, transceivers apart, are one row per winner, with its description; no other device and no storage item holds a reported number; other devices' rows with no such number are untouched |
| `InventoryOwnership.InventorySparesUnclaimed` | `network/services/sync_service.py:349-365` | of the rows of the device without a reported number exactly those go that bear another number and are no transceivers, or bear none and are named in the report; the rest is untouched |
| `InventoryOwnership.PlaceholdersTakeNothing` | `network/services/sync_service.py:309-365` | a report whose lines hold only placeholders takes no number from anybody; of the device exactly the rows without a number go that the report names |
| `InventoryOwnership.InventoryKeepsSerialsUnique` | `network/services/sync_service.py:294-365` | numbers stay unique exactly when the device has no transceiver row with a reported name and number in another spelling |
| `InventoryOwnership.PlainNamesHaveNoTwin` | `network/services/sync_service.py:355-357` | reports without transceiver names never meet that case |
| `InventoryOwnership.TransceiverNameBreaksUniqueness` | `network/services/sync_service.py:355-357` | tables and a one-line report after which two modules hold the same number |
| `InventoryOwnership.InventoryIsIdempotent` | `network/services/sync_service.py:294-365` | applying the same report again changes nothing |
| `SerialProtocol.TransceiversKeepSerials` | `network/services/sync_service.py:445-469` | the transceiver step keeps every valid number held once, whatever is reported |
| `TransceiverOwnership.TransceiversRaiseExactly` | `network/services/sync_service.py:445-464` | the step raises exactly when two stored modules of the device share a reported name and no number reported before that entry takes either |
| `TransceiverOwnership.TransceiversTakeOver` | `network/services/sync_service.py:445-469` | after a success the device has exactly one module, as reported, per reported name whose last entry keeps its number, and none for one whose number a later entry takes; of its other modules exactly those go that bear a reported number or, once a name is reported, are named like transceivers; storage and other devices lose exactly the rows with a reported number |
| `TransceiverOwnership.EntryIsStored` | `network/services/sync_service.py:445-464` | a single entry with a name leaves the device one module of that name, with the reported description and number and no vendor |
| `TransceiverOwnership.UnnamedAreSkipped` | `network/services/sync_service.py:448-450` | an entry without a name, or with an empty one, changes nothing, wherever it stands in the report |
| `TransceiverOwnership.SyncSucceedsExactly` | `network/services/sync_service.py:115-123` | without a stale twin a synchronisation completes exactly when the transceiver step does not raise on what the inventory leaves |
| `TransceiverOwnership.SyncNamesDevice` | `network/services/sync_service.py:264-277` | a synchronisation gives the device its reported number when that is one, and changes no other column of any device |
| `TransceiverOwnership.SyncTakesBoth` | `network/services/sync_service.py:115-123` | between both reports lie tables on which the inventory has had its whole effect, and from which the transceivers have theirs |
| `SerialProtocol.SyncKeepsSerials` | `network/services/sync_service.py:115-123` | both steps of a synchronisation keep every valid number held once |
| `SerialProtocol.ImportKeepsSerials` | `asset/views.py:491-615` | after any number of rows, saved or refused, every valid number is held once |
| `SerialProtocol.ImportCounts` | `asset/views.py:601-615` | each filled row counts once, as saved or as an error |
| `SerialProtocol.ImportLosesNoRow` | `asset/views.py:491-621` | after an import without errors each filled row has an item of its own with its data, and no other row of any table changed |
| `ImportOutcome.ImportStoresRows` | `asset/views.py:491-621` | after an import each filled row stands in an item of its own with the trimmed cells of the row, stored over the item with its inventory or serial number when there is one; every other row of any table is as before |
| `ImportOutcome.SerialFreeExactly` | `asset/views.py:540-610` | the serial condition of a row: nobody but the item it goes to holds its number |
| `ImportOutcome.ImportSucceedsExactly` | `asset/views.py:491-621` | an import succeeds exactly under a condition on the sheet and the tables before it: each filled row fits the items that no earlier row overwrites, and no two filled rows clash |
| `ImportOutcome.RowPassesExactly` | `asset/views.py:512-610` | one row passes, at its turn, exactly when it fits the stored items not yet overwritten and clashes with no earlier row |
| `SerialRuns.DecommissionMovesToStorage` | `dcim/views/device_views.py:185-274` | a success removes the device and all its modules and adds exactly one item per STORE row, in order, with the columns of the form and the site of the device; all other rows are unchanged |
| `SerialRuns.StoredItemHoldsForm` | `dcim/views/device_views.py:83-127` | the item of a module row has the number of the module and as model its trimmed description, or its trimmed name when that is empty; the item of the device row has the number of the device and as model that of its type, or its name |
| `DecommissionOutcome.PlanExactly` | `dcim/views/device_views.py:193-257` | the checking loop passes exactly when every row names a source, every STORE row has a model, and no two share an inventory or serial number |
| `DecommissionOutcome.SaveExactly` | `dcim/views/device_views.py:259-272` | the saves all pass exactly when each item is valid beforehand and none takes the inventory or serial number of an earlier one |
| `DecommissionOutcome.DecommissionSucceedsExactly` | `dcim/views/device_views.py:185-274` | a decommission succeeds exactly under a condition on the form and the tables before it |
| `DecommissionOutcome.DecommissionSucceedsByColumns` | `dcim/views/device_views.py:185-274` | the same condition on the columns: every row names the device or a module of it, every STORE row has a model and free numbers once the device is gone, and no two STORE rows share one |
| `SerialRuns.StepKeepsSerials` | `services/validation_service.py:43-106` | every step, successful or rolled back, keeps every valid number held once |
| `SerialRuns.RunKeepsSerialsUnique` | `services/validation_service.py:43-106` | over every run of the steps, device writes included, no valid number is held by two rows of modules and storage, ignoring case |
| `SerialStore.CollectEntries` | `network/services/sync_service.py:309-330` | the loop yields the winners, which are the best lines by number, and the names without a number |
| `SerialStore.Tables.RemoveStorageDuplicates` | `network/services/sync_service.py:229-236` | exactly the items with the number, in any case, are gone; the others are as before |
| `SerialStore.Tables.ReconcileModuleSerial` | `network/services/sync_service.py:238-243` | the number leaves storage and every module but the named one of the device; all other rows are as before |
| `SerialStore.Tables.UpdateOrCreateModule` | `network/services/sync_service.py:338-346` | one row with device, name and number is as reported, refreshed or new, and all others are as before; fails, changing nothing, exactly when there are several |
| `SerialStore.Tables.TakeSerials` | `network/services/sync_service.py:332-347` | the loop refines the specification whose ownership properties are proved |
| `SerialStore.Tables.SweepModules` | `network/services/sync_service.py:349-365` | removes exactly the obsolete rows and the blank rows named in the report |
| `SerialStore.Tables.ApplyInventoryReport` | `network/services/sync_service.py:294-365` | on tables in order it never fails; the device, the other devices and storage end as the ownership lemmas say |
| `SerialStore.Tables.ApplyTransceiverReport` | `network/services/sync_service.py:445-469` | on tables in order it fails exactly when the step raises; otherwise the device ends with one module per kept name and all others lose exactly the reported numbers |
| `SerialStore.Tables.SyncModules` | `network/services/sync_service.py:72-123` | is the synchronisation step of a run: all of it, or nothing; without a stale twin it keeps every valid number held once, completes exactly when the transceiver step does not raise, names the device and has the effect of both reports in order |
| `SerialStore.Tables.CleanModule` | `services/validation_service.py:43-77` | accepts exactly when the normalised number is in no other module and in no storage item |
| `SerialStore.Tables.WriteModuleRow` | `services/validation_service.py:43-77` | accepted exactly when no holder but the row itself has the number; then one row is written with the given columns and the stored form of the number; a refused write changes nothing and every valid number stays held once |
| `SerialStore.Tables.CleanItem` | `asset/models/inventory_item.py:100-122` | accepts exactly when the columns are fine, the normalised number is in no module and no other item, and the inventory number is in no other item |
| `SerialStore.Tables.CleanAndSaveItem` | `services/validation_service.py:80-106` | stores the row with its normalised number exactly when it is valid, otherwise changes nothing |
| `SerialStore.Tables.WriteItemRow` | `services/validation_service.py:80-106` | accepted exactly when the columns are fine, no holder but the row itself has the number and no other item the inventory number; then one row is written as given; every valid number stays held once |
| `SerialStore.Tables.ImportRowsOfSheet` | `asset/views.py:491-625` | all rows exactly when the sheet is importable, each with its cells in an item of its own, else none; every valid number stays held once |
| `SerialStore.Tables.SourceItems` | `dcim/views/device_views.py:83-127` | the lookup has exactly the device and its modules, each with its serial number and model |
| `SerialStore.Tables.PrepareItems` | `dcim/views/device_views.py:193-257` | refines the checking loop |
| `SerialStore.Tables.SavePending` | `dcim/views/device_views.py:261-269` | refines the saving loop |
| `SerialStore.Tables.ProcessDecommission` | `dcim/views/device_views.py:185-274` | succeeds exactly for a form that is storable by its columns, then removes the device and stores one item per STORE row with the columns of its source; a failure leaves everything as it was |
| `ConfigHistory.NormalizeText` | `dcim/services/configuration_persistence_service.py:11-22` | the loop refines the normalisation |
| `ConfigHistory.NormalizeIsJoinedCore` | `dcim/services/configuration_persistence_service.py:11-22` | a normalised text splits into lines without trailing space or boundary characters, with no volatile marker after the first |
| `ConfigHistory.NormalizeIdempotent` | `dcim/services/configuration_persistence_service.py:11-22` | normalising twice is normalising once exactly when the first non-blank kept line is not a marker once unindented |
| `ConfigHistory.NormalizeKeepsContent` | `dcim/services/configuration_persistence_service.py:11-22` | up to trailing white space the non-blank lines of a normalised text are those of the text that start with neither marker, in order; only the first loses its indentation |
| `ConfigHistory.MarkersMakeNoVersion` | `dcim/services/configuration_persistence_service.py:17-20` | texts that differ in a marker line only are one version |
| `ConfigHistory.IndentedMarkerIsUnstable` | `dcim/services/configuration_persistence_service.py:17-22` | a one-line text that normalising twice changes |
| `ConfigHistory.ConfigLog.FindLatest` | `dcim/services/configuration_persistence_service.py:57-62` | the row of the device with the greatest time |
| `ConfigHistory.ConfigLog.PersistConfig` | `dcim/services/configuration_persistence_service.py:28-76` | a failure is always appended, without text, digest and collector; a success is appended, with its normalised text, source and collector and a link to the newest row of the device, exactly when that row does not hold its digest |
| `ConfigHistory.RunStoresChanges` | `dcim/services/configuration_persistence_service.py:28-76` | for every run with an advancing clock the stored history of each device, with its sources and collectors, is its calls with repeated equal successes collapsed and every failure kept; each success links to the row of its device just before it |
| `ConfigHistory.LinksGoBack` | `dcim/services/configuration_persistence_service.py:67-76` | following `previous` goes to the nearest earlier row of the device, earlier in time |
| `ConfigHistory.StoredTextIsUnchanged` | `dcim/services/configuration_persistence_service.py:54-65` | persisting the text just stored again adds no row, exactly when the text hides no marker |
| `VisualDiff.AppendBlock` | `automation/engine/diff_engine.py:87-118` | one block adds its rows to the four lists in step |
| `VisualDiff.AlignBlocks` | `automation/engine/diff_engine.py:87-118` | the four lists are the columns of the aligned rows |
| `VisualDiff.NoLineIsLost` | `automation/engine/diff_engine.py:87-118` | on each side the non-blank lines are those of the text, in order; the row count lies between max(n, m) and n + m |
| `VisualDiff.ClassesAreSound` | `automation/engine/diff_engine.py:81-118` | two non-blank context lines of a row are equal; removed, added and changed lines stand where their class says |
| `VisualDiff.RowShowsBlock` | `automation/engine/diff_engine.py:87-118` | the k-th row of a block shows its k-th lines: of an equal block side by side as context, of a replaced one opposite each other as changed unless blank, of a deleted or inserted one alone on its side as removed or added |
| `VisualDiff.ClassComesFromBlock` | `automation/engine/diff_engine.py:87-118` | each row is a row of some block; changed, removed and added stand only in replaced, deleted and inserted blocks, and without such blocks every row is context with the same line on both sides |
| `VisualDiff.EqualTexts` | `automation/engine/diff_engine.py:88-95` | when all blocks are equal both columns are the whole texts |
| `VisualDiff.GenerateVisualDiff` | `automation/engine/diff_engine.py:71-125` | all of this for every opcode list that tiles both texts; equal texts are shown as context only |
| `AreaTree.SortIsSorted` | `core/organization_views.py:36` | siblings are a permutation of the children, in name order |
| `AreaTree.SortIsStable` | `core/organization_views.py:36` | areas of one name keep the order of the list |
| `AreaTree.FirstDifferenceDecides` | `core/organization_views.py:36` | of two names the one with the smaller character at the first difference comes first, and a beginning before its continuation |
| `AreaTree.DepthIsUnderRoot` | `core/organization_views.py:35-44` | a parent chain of d links ends at a root exactly when the area descends from a root by d links |
| `AreaTree.SubtreeCounts` | `core/organization_views.py:35-42` | the tree of an area lists each of its descendants once and nothing else |
| `AreaTree.LevelCounts` | `core/organization_views.py:36` | the trees of siblings list each descendant of one of them once |
| `AreaTree.BuildMarks` | `core/organization_views.py:37-42` | in every tree built a node is open exactly when its subtree has the selected area, and siblings are in name order |
| `AreaTree.GroupByParent` | `core/organization_views.py:27-29` | the children map groups the areas by parent, in list order |
| `AreaTree.FindRoots` | `core/organization_views.py:31-33` | the roots are the areas without a parent, in list order |
| `AreaTree.BuildAreaTree` | `core/organization_views.py:21-44` | for any parent relation, cyclic ones included, the forest lists each area whose chain reaches a root exactly once and no other; below each node stand the areas whose parent it is, by name; marks are right |
| `Topology.NeighborStore.Upsert` | `topology/services/topology_service.py:24-44` | refreshes the one row with the key or creates it; fails, changing nothing, for an empty name or several rows |
| `Topology.NeighborStore.UpsertAll` | `automation/tasks/topology_collector.py:93-133` | succeeds exactly when every entry with a resolved interface has a name and at most one stored row with its key; then the seen rows hold exactly the observed keys, one row each, with the details of the last report; other devices and protocols are untouched either way |
| `Topology.CleanupMirrors` | `automation/tasks/topology_collector.py:140-147` | after the clean-up the stored keys of an available protocol are exactly the observed ones, without duplicates |
| `Topology.NeighborStore.Collect` | `automation/tasks/topology_collector.py:79-151` | succeeds exactly when every entry of the usable outputs can be stored; then stored equals observed for each protocol with output, each neighbour as last reported; rows of other devices and of unavailable protocols are untouched, on failure too |

## Left out

Weaker than the source, or narrower:

- PrefixValidation.PrefixStore.Validate: covers the creation of a prefix in one address family whose parent, if any, is stored; in-place edits do not re-validate children and may name the row itself as parent, and `subnet_of` raises across families.
- PrefixValidation.PrefixStore.HasAncestor: assumes that the walk ends or hits a candidate; on a cyclic parent relation the source loops forever. `WalkEnds` shows that the relation never is cyclic after creates and deletes.
- PrefixValidation.PrefixStore.Delete: addresses that protect a prefix from deletion are not modelled.
- IpAllocation.NextAvailableIp: stored addresses are taken to be well-formed and of the family of the prefix.
- RackOccupancy.RackStore.SelectPosition: a requested unit is returned without a range check, as in the source, so only the fallback is bounded; the random choice is an arbitrary one.
- RackOccupancy.RackStore.Delete: the rack is read from the table, not from a device object that may be stale; bulk deletes that bypass `Device.delete` are not modelled, and do not refresh the index.
- RackOccupancy.RackStore.Assign: the lookups of vendor, type, role and tags enter as one flag that makes the step fail; the candidate row and the synchronisation that follows are left out, and no second assignment runs in between.
- RackElevation.BuildLayout: the height of a row in pixels is presentation and left out.
- RackOccupancy.RackStore.ApplyStackMembers: of a stack member only the switch number is kept.
- SerialModel.SaveItemKeepsSerials: the checks of the other columns enter as a flag of the row.
- SerialProtocol.ImportCounts: counts saved rows only; the split into created and updated is left out, since the key has a default and every row counts as updated.
- SerialProtocol.ImportLosesNoRow: cells are text and the resolved choices, site, area and vendor enter with the row; numeric cells and headers are left out.
- SerialStore.Tables.SyncModules: the parts of a synchronisation that move no serial number of modules or storage are left out; when one of them raises, the transaction is rolled back and the step does not happen.
- ConfigHistory.RunStoresChanges: the hash is taken to be collision-free and the clock to advance between calls; both readings of the clock in one call are one.
- VisualDiff.GenerateVisualDiff: the matcher is not modelled; its documented contract (the opcodes tile both texts) is the hypothesis.
- Topology.NeighborStore.Collect: entries arrive parsed, with the local interface resolved, the name normalised and the protocol of their command; lookups without regard to case are left out.

Not modelled:

- SSH, ping, SNMP, DNS, Celery, WebSocket, Git and spreadsheet input and output, HTML views, admin, serializers, templates, migrations, authentication: no algorithm on stored rows, or libraries.
- Parsing of CIDR text and of addresses: a text is an address with a length, or malformed. Interval splitting and host enumeration are written out.
- Case folding and white space beyond what the code needs: letters fold in the ASCII range; the white space and line boundaries of Unicode are listed one by one.
- Keys are drawn from a counter of unused numbers where the source draws random UUIDs.
- Positions and heights have one decimal digit; changes to the height of a device type, which do not refresh the index, are left out.
- Formsets that validate several rows before saving any: rows are written one at a time.
- The serial number of a device itself: no step claims that it is unique. A device write is an arbitrary row; the constraints on its columns are left out.
- `SyncService._record_config`: it stores without comparing, so the history property is about `persist` only.
- The LLDP detail parser, the discovery review flags, the status fields of jobs, device replacement: single-branch updates or text formats.
