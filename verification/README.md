# The home node's device inventory, modelled and proved

The home node finds devices on the network and through BLE gateways and keeps one stable list of them. This
project models the parts that decide what is on that list, and proves what they keep:

- **History** (`HistoryRecords`, `HistoryCleanup`, `HistorySweep`, `HistoryRetention`, `HistoryTakeover`,
  `HistoryChains`, `HistoryRuns`, `HistoryMacless`, `HistoryMatching`, `HistoryDeterminism`, `HistoryRepetition`,
  `HistoryNews`, `HistoryStore`, `HistoryPublication`): a keyed store that every sweep of the network rewrites. A swept
  device is matched by key, then MAC, then IP; its record is taken out, refreshed and put back, perhaps under another
  key. What was not seen goes inactive, and a clean-up re-keys the store and lets records with a MAC absorb the ones
  without.
- **BLE ingest** (`BthomeParser`, `BthomeDedup`, `BthomeIngest`, `BthomeDescription`): a parser of variable-width objects, a
  sliding-window deduplicator that prunes its memory, and the loop that composes them with counters, telemetry and
  a bounded event log.
- **Control plane** (`ControlRegistry`, `ModuleLifecycle`, `CommandFanout`): the registry that all modules write to, and
  the fan-out of commands to bounded queues, as a step system over subscribe, send, receive and close.
- **Aggregation, linking, matching** (`Aggregation`, `AggregationNaming`, `DeviceLinks`, `DevicePairing`, `UnifiedView`,
  `Catalog`): the fold of observations into devices, the link graph and the view built from it, and the choice of a
  product from the catalogue.

Where the program updates fields in place there is a class whose methods are proved against functions on values;
the lemmas are about those functions, over every input, every order of iteration and every run. What these functions
decide is told again without them: on fields, positions, bytes and times, or from a whole list or run.

## How the model reads the program

- Time is a natural number and 0 stands for the empty string. Stored times come from `to_rfc3339` in UTC, so
  comparing them as strings compares them as times. The current time is a parameter.
- Strings are ASCII for trimming and case. The theorems that tell MACs and ids apart need only that ids start with
  `net-`, as all that the scanner and the seeding code make do (`scanner.rs:707-718`, `history.rs:301`, `history.rs:367`),
  and that a MAC does not.
- A map yields its entries in any order. In lemmas that order, and any record a scan of a map may find, is an
  argument; in methods it is chosen with `:|`. Every theorem therefore holds for every order and every find.
- Evidence is what a store knows: its sources, capabilities, any-active, any-ever-active, the latest last_seen and
  the earliest non-empty first_seen.
- Classification, vendor lookup by MAC and the payload hash are arbitrary functions.

## Where the program does less than it says

- The IP fallback (`history.rs:433-445`) hands the record of one MAC to a device with another. `TakeoverIsExact` says
  for which sweeps this can happen: those with an entry whose MAC is unknown, is new in this sweep, and whose IP is
  that of a record with another MAC that no earlier entry named. A device that lost its record so takes over
  another by its IP, and so on; `ForgetsExactly` says which MACs may be lost at the end of such chains, and
  `PrinterIsForgotten` and `ShiftForgets` show cases. Retention is proved for every MAC that cannot be lost so,
  whatever happens to the others; known devices may swap addresses.
- A record keeps the device id it was created with, which is made of an address, while the registry files devices by
  id. The registry shows all records if and only if no two carry one id (`RegistryHoldsAllExactly`).
  `NewcomersRepeatIdsExactly` says after which sweeps that stays so, `SomeOutcomeRepeatsIdsExactly` says it from store and
  sweep alone: an outcome may repeat an id if and only if an entry that may be matched with no record brings the id of
  one, as it does on the old address of a device that has moved (`MovedDeviceIsOvershadowed`).
- Several devices on one MAC, as peers behind a gateway, are filed under one key, and the last of them is kept:
  `AllKeepTheirRecordsExactly`, and from observations to the history `EveryDeviceKeepsItsRecordExactly`.
- Which of several records on one address a device is matched with that is found neither by key nor by MAC depends on the
  order of the map, so outcomes may differ (`OutcomesMayDiffer`). Matches are told without choice if and only if no two
  records wait for such a device (`MatchesAreUniqueExactly`); among devices with MACs all outcomes agree if and only if
  none can take over either of two records (`OutcomesAgreeExactly`). With devices or records without a MAC
  `OutcomesAgree` says what is enough: a ghost between two hosts is another choice (`CleanupsMayDiffer`).
- A new record lists the sources of the device, a refreshed one the reporting source too. So the same sweep again may
  still add to a record (`RepeatingMayAdd`): `RepeatingChangesNothingExactly`.
- Device ids of BLE devices drop colons and dashes from the MAC, the deduplication key and telemetry do not. A broadcast
  reported in two notations is processed twice, as one device: `ReportsOfOneInARun`, `TwoReportsOfOne`, `DashesMakeTwo`.
- The comment on `reconcile_sweep` says swept devices become active. The code, and the model, honour an entry that
  reports itself inactive (`history.rs:449`).
- A rejected upsert may have applied a part of its own list (`service.rs:80-94`): `RejectedUpsertAppliesItsPrefix` says
  which part.
- A full queue drops a command and still counts it as delivered (`service.rs:187-190`): `CompleteUnlessFull` and
  `FullSubscribersCount`.
- Deduplication by IP is said to prefer records with a MAC (`main.rs:3154-3160` of the web module). Each reason to
  prefer the newer record is enough on its own. `FirstUnsurpassedIsKept` says, for every list of devices, which one is
  kept on an IP: the first to which no later one is preferred; `MacIsKeptExactly` when it has a MAC.
- The view hides a linked device unless some owner of it is shown itself: `HiddenExactly`. So a device vanishes that is
  linked below another linked device, as at the end of a chain (`ChainHidesItsEnd`) or on a cycle (`CyclesHideDevices`).
- Unlinking leaves an empty list behind, and a list under a device's id hides one under its MAC. So linking and
  unlinking again may take away interfaces: `UnlinkRestoresTheView` says when, `EmptyListHidesTheMacList` shows a case.
- `Current` is declared as a measurement but object id 0x0E has no entry in the parser's table; such an object is read
  as an unknown one-byte object.

## Model

| member | source | states |
|---|---|---|
| HistoryRecords.KeyIsTold | modules/network-discovery/src/history.rs:129-137 | a record's key is its MAC, trimmed and in lower case, unless that is empty or incomplete; else its id |
| HistoryRecords.MergeRecords | modules/network-discovery/src/history.rs:183-250 | the field-by-field update of the target, in the program's order, gives the merge that the lemmas below are about |
| HistoryRecords.WithMissingUnites | modules/network-discovery/src/history.rs:191-195 | pushing what is missing unites the elements, keeps the old list in front and adds no duplicate |
| HistoryRecords.MergeJoinsEvidence | modules/network-discovery/src/history.rs:183-206 | a merge loses no evidence of either record and invents none |
| HistoryRecords.MergeKeepsIdentity | modules/network-discovery/src/history.rs:183-250 | the target keeps its id, IP, interface and MAC; records with the same key merge into one with that key |
| HistoryRecords.MergeOverridesNothing | modules/network-discovery/src/history.rs:208-244 | only gaps are filled: known details, a specific name, a specific category and the listed sources stay |
| HistoryRecords.MergeFillsGaps | modules/network-discovery/src/history.rs:183-250 | every gap is filled with what the other record knows, the product's name with its id; times and activity are the widest of both |
| HistoryRecords.MergeAbsorbs | modules/network-discovery/src/history.rs:183-250 | merging the same record in again changes nothing |
| HistoryRecords.MergeIsAssociative | modules/network-discovery/src/history.rs:183-250 | three records merge to the same in either grouping, up to the order of the two lists |
| HistoryRecords.StoreEvidenceSplit | modules/network-discovery/src/history.rs:183-206 | the evidence of a store is that of any one record joined with that of the rest, whichever is taken first |
| HistoryCleanup.RekeyingIsOrderBlind | modules/network-discovery/src/history.rs:143-152 | whatever the drain order, each key ends with the joint evidence of exactly the records that belong there |
| HistoryCleanup.RekeyingOrdersAgree | modules/network-discovery/src/history.rs:143-152 | two drains in any two orders agree on the keys and on the evidence under each |
| HistoryCleanup.LonelyRecordIsMoved | modules/network-discovery/src/history.rs:143-152 | a record whose proper key no other record shares arrives there untouched |
| HistoryCleanup.AbsorbingKeepsHolders | modules/network-discovery/src/history.rs:154-179 | exactly the ghosts leave, hosts keep their identity, every record that takes no ghost in stays as it was, evidence is conserved |
| HistoryCleanup.GhostsAreTold | modules/network-discovery/src/history.rs:154-172 | absorbed are exactly the records without a MAC on the address of a record with one |
| HistoryCleanup.CleanupNormalises | modules/network-discovery/src/history.rs:141-180 | from any store, in any order, every record ends under its own key and no MAC-less record shares an IP with a MAC |
| HistoryCleanup.CleanupIsIdempotent | modules/network-discovery/src/history.rs:141-180 | a store in normal form is not changed |
| HistoryCleanup.CleanupConservesEvidence | modules/network-discovery/src/history.rs:141-250 | the store-wide evidence is the same before and after: no ghost is dropped unmerged |
| HistoryCleanup.CleanupPreserves | modules/network-discovery/src/history.rs:141-180 | every property of records that merging respects survives |
| HistorySweep.RefreshIsIdempotent | modules/network-discovery/src/history.rs:447-515 | one report twice in a sweep is that report once |
| HistorySweep.CreatedIsSettled | modules/network-discovery/src/history.rs:516-549 | a new record is a fixpoint of its own report, up to listing the reporting source |
| HistoryNews.RefreshNames | modules/network-discovery/src/history.rs:475-489 | a specific name or category is always taken over, a generic one only in place of a generic one |
| HistoryNews.RefreshDetails | modules/network-discovery/src/history.rs:491-509 | every reported detail is held afterwards, the product's name with its id; what is not reported stays |
| HistoryNews.RefreshMoves | modules/network-discovery/src/history.rs:447-473 | address, interface and source are the report's, lists are united, id and first sighting stay, and only an active report counts as seen |
| HistoryNews.SweptMacTellsTheNews | modules/network-discovery/src/history.rs:404-566 | after every outcome of a sweep the record of a swept MAC has the specific name and category, the details, interface and source of the last entry with that MAC |
| HistorySweep.SweptCountsUp | modules/network-discovery/src/history.rs:412-550 | re-keying overwrites no other record: the count grows by exactly one for each unmatched entry |
| HistorySweep.SweptIsAccounted | modules/network-discovery/src/history.rs:412-550 | a key is either as before or carries the IP, MAC and activity of the last entry filed under it |
| HistorySweep.ReconciledIsCurrent | modules/network-discovery/src/history.rs:447-559 | afterwards first_seen <= last_seen <= now, and an active record was seen now and counts as ever active |
| HistorySweep.QuietSweepSilencesAll | modules/network-discovery/src/history.rs:552-559 | a sweep without an active entry leaves no record active |
| HistorySweep.SweptStaysTidy | modules/network-discovery/src/history.rs:412-550 | keys that are no ids keep belonging to their MAC and no MAC gets two records |
| HistorySweep.ReconciledIsNormal | modules/network-discovery/src/history.rs:404-566 | a sweep ends in the clean-up's normal form, and tidy if it began so |
| HistorySweep.GhostsOfSweptAreInactive | modules/network-discovery/src/history.rs:412-559 | a ghost that a swept MAC absorbs is inactive, so absorbing it does not change the activity |
| HistorySweep.SweptMacEndsUnderItsKey | modules/network-discovery/src/history.rs:412-559 | from a canonical store, a swept MAC ends under exactly that key, with IP and activity of its last entry |
| HistorySweep.AllKeepTheirRecordsExactly | modules/network-discovery/src/history.rs:412-559 | every swept device with a MAC keeps a record with its own IP if and only if devices that share a MAC share their IP |
| HistoryRetention.MergeRetainsBoth | modules/network-discovery/src/history.rs:183-250 | a merge retains what either record knew: first_seen, ever-active, details, specific name and kind |
| HistoryRetention.RefreshRetains | modules/network-discovery/src/history.rs:447-515 | so does a refresh, whatever the device reports |
| HistoryChains.SweepRetains | modules/network-discovery/src/history.rs:404-566 | a MAC that cannot be lost stays known, under its own key, with all its record knew, whatever is taken over elsewhere |
| HistoryRuns.RunsStayTimely | modules/network-discovery/src/history.rs:447-559 | over any run of sweeps and forgets the time order holds, and after a sweep only what it saw is active |
| HistoryRuns.RunsStayTidy | modules/network-discovery/src/history.rs:404-579 | over any run of forgets and good sweeps, with takeovers or without, the store stays tidy |
| HistoryRuns.RunsRetain | modules/network-discovery/src/history.rs:404-566 | over any such run a MAC neither forgotten nor in reach of a takeover stays known; first_seen never grows, archive is never re-entered, a specific name or kind never becomes generic |
| HistoryRuns.ForgettingAMacForgetsIt | modules/network-discovery/src/history.rs:569-579 | forgetting a MAC in any spelling leaves no record that holds it |
| HistoryRuns.ForgetsOnlyWhatAnswers | modules/network-discovery/src/history.rs:569-579 | exactly the records leave of which key, id or MAC is the text, trimmed and in any case |
| HistoryRuns.RunsExist | modules/network-discovery/src/history.rs:404-579 | any events may follow on any store, so the theorems over runs are not empty |
| HistoryRuns.ForgettingKeepsInvariants | modules/network-discovery/src/history.rs:569-579 | forgetting keeps tidiness, the normal form and the order of times |
| HistoryChains.TakeoverIsExact | modules/network-discovery/src/history.rs:432-445 | some choice of matches takes a record over if and only if some entry of the sweep can |
| HistoryTakeover.TakeoverForgets | modules/network-discovery/src/history.rs:432-475 | if such an entry exists and the old MAC is not swept, there is an outcome in which that MAC is unknown (the one-step case of ForgetsExactly) |
| HistoryTakeover.PrinterIsForgotten | modules/network-discovery/src/history.rs:432-475 | a concrete case: a phone on the printer's old address, and the printer is gone |
| HistoryTakeover.ReconcileExists | modules/network-discovery/src/history.rs:404-566 | every store and every sweep have an outcome, so the theorems over all outcomes are not empty |
| HistoryChains.ForgetsExactly | modules/network-discovery/src/history.rs:404-566 | a sweep may forget a known MAC if and only if it does not find it and some entry can take over its record in turn, at the end of however long a chain |
| HistoryChains.NoTakeoverIfNothingCanBeLost | modules/network-discovery/src/history.rs:432-445 | the hypothesis of the retention theorems says just that no MAC can lose its record |
| HistoryChains.ShiftForgets | modules/network-discovery/src/history.rs:432-475 | a concrete chain: a newcomer on the address of a device that moved to the address of a third, and the third is gone |
| HistoryMacless.WrittenWaits | modules/network-discovery/src/history.rs:412-550 | in the first loop, what an entry without a MAC wrote stays under its id, unless a later entry has the MAC that its record carries |
| HistoryMacless.MaclessJoinsItsMac | modules/network-discovery/src/history.rs:412-559 | an entry without a MAC matched with a record carrying one ends under that MAC, with its IP and activity, unless a later entry has the MAC |
| HistoryMacless.MaclessEndsUnderItsId | modules/network-discovery/src/history.rs:412-559 | if ids follow IPs, another one ends under its own id with its IP, activity and evidence, or a record with a MAC on its IP has all its evidence; it keeps a record if and only if there is no such record |
| HistoryMacless.MaclessIsNeverDropped | modules/network-discovery/src/history.rs:412-559 | whatever the ids, all the evidence of its record ends under the key of that record, or in a record with a MAC on the IP of some record filed under that key, which is active if the device is |
| HistoryMatching.MatchesAreUniqueExactly | modules/network-discovery/src/history.rs:416-445 | which record each device with a MAC is matched with is the same for every order of the map if and only if, wherever two records wait on the address of an entry, the entry is found by key or MAC |
| HistoryMatching.MayBeNewExactly | modules/network-discovery/src/history.rs:416-445 | some order leaves an entry without a match if and only if it may be found neither by key nor by MAC and no record waits on its address |
| HistoryDeterminism.OutcomesAgreeExactly | modules/network-discovery/src/history.rs:404-566 | among devices with MACs and records under their MACs with distinct ids, all outcomes of a sweep are equal, for every order and find, if and only if no entry can take over either of two records |
| HistoryDeterminism.OutcomesAgree | modules/network-discovery/src/history.rs:404-566 | with entries and records without a MAC too, all outcomes are equal if key or MAC decides wherever two records wait on one address, ghost and host on it are told without choice, and ids follow IPs |
| HistoryDeterminism.CleanupAgrees | modules/network-discovery/src/history.rs:141-180 | clean-up has one outcome if no two records belong under one key and no third record is on the address of a ghost and its host |
| HistoryDeterminism.OutcomesMayDiffer | modules/network-discovery/src/history.rs:432-445 | a concrete good sweep of a normal, tidy store with two outcomes that disagree on which device is active |
| HistoryDeterminism.CleanupsMayDiffer | modules/network-discovery/src/history.rs:154-179 | a concrete ghost between two hosts: two outcomes of clean-up that disagree on which device is active |
| HistoryRepetition.RepeatingChangesNothingExactly | modules/network-discovery/src/history.rs:404-566 | a sweep of devices each with a MAC of its own, repeated at the same moment, changes nothing if and only if the record of every device lists the reporting source |
| HistoryRepetition.RepeatingChangesNothing | modules/network-discovery/src/history.rs:404-566 | so it changes nothing if every device lists its reporting source, as all do that aggregation delivers |
| HistoryRepetition.RepeatingMayAdd | modules/network-discovery/src/history.rs:447-549 | a concrete report whose repetition adds the reporting source |
| HistoryStore.RefreshRecord | modules/network-discovery/src/history.rs:447-514 | the assignments of the matched branch, in order, give the refreshed record |
| HistoryStore.LoadedIsReady | modules/network-discovery/src/history.rs:74-97 | whatever the file held, a loaded store is in normal form, its active records count as ever active, and no evidence of the repaired records is lost |
| HistoryStore.RepairIsTold | modules/network-discovery/src/history.rs:80-92 | a repaired record lists its source and counts as once active unless only the router told of it; nothing else changes, nor does a second repair |
| HistoryStore.DeviceHistoryStore.Load | modules/network-discovery/src/history.rs:66-97 | every record is repaired, then the store is cleaned up |
| HistoryStore.DeviceHistoryStore.ForgetDevice | modules/network-discovery/src/history.rs:569-579 | exactly the records that answer to the id or MAC leave, and the result tells whether any did |
| HistoryStore.DeviceHistoryStore.Rekey | modules/network-discovery/src/history.rs:143-152 | draining the map in any order refines the re-keying the lemmas are about |
| HistoryStore.DeviceHistoryStore.AbsorbGhosts | modules/network-discovery/src/history.rs:154-179 | so does the second phase, for a host table and a list of ghosts as the program builds them |
| HistoryStore.DeviceHistoryStore.CleanupDuplicates | modules/network-discovery/src/history.rs:141-180 | the two phases end in a possible outcome of clean-up |
| HistoryStore.DeviceHistoryStore.FindMatch | modules/network-discovery/src/history.rs:416-445 | by key, else by MAC, else by IP, else none |
| HistoryStore.DeviceHistoryStore.FileDevice | modules/network-discovery/src/history.rs:412-550 | the match is removed and its refreshed record inserted under the device's key, or a new record is |
| HistoryStore.DeviceHistoryStore.FileAll | modules/network-discovery/src/history.rs:412-550 | the first loop files every entry of the sweep and collects their keys |
| HistoryStore.DeviceHistoryStore.MarkMissing | modules/network-discovery/src/history.rs:552-557 | what was not seen becomes inactive and changes in nothing else |
| HistoryStore.DeviceHistoryStore.ReconcileSweep | modules/network-discovery/src/history.rs:404-566 | a sweep ends in a possible outcome of reconciling, and reports it |
| HistoryStore.DeviceHistoryStore.Report | modules/network-discovery/src/history.rs:561-566 | one line for each record with its id, name, kind and times: active, or once active, or in the archive |
| HistoryPublication.RegistryHoldsAllExactly | modules/network-discovery/src/main.rs:190-196 | the registry accepts the report and holds one device for each record if and only if no two records carry the same device id |
| HistoryPublication.HeldShowsARecord | modules/network-discovery/src/history.rs:581-652 | what the registry holds under an id has the name and kind of a record with that id |
| HistoryPublication.SweptIdsExactly | modules/network-discovery/src/history.rs:412-550 | after the first loop of any sweep the device ids are those before and those of unmatched entries, and distinct if and only if no such entry repeats one |
| HistoryPublication.NewcomersRepeatIdsExactly | modules/network-discovery/src/history.rs:404-566 | among devices with MACs every outcome has distinct ids if and only if they were distinct and no newcomer repeats one |
| HistoryPublication.SomeOutcomeRepeatsIdsExactly | modules/network-discovery/src/history.rs:404-566 | told from store and sweep alone: among devices with MACs, some outcome repeats an id if and only if an entry that may be matched with no record brings the id of one |
| HistoryPublication.MovedDeviceIsOvershadowed | modules/network-discovery/src/main.rs:190-196 | a concrete sweep after which, in every outcome, two records are published as one device |
| BthomeDedup.BTHomeDedup.IsDuplicate | modules/bthome/src/dedup.rs:34-85 | pruning, comparing, tracking the best signal and inserting refine one step of the deduplicator |
| BthomeDedup.MapTracksLastAccepted | modules/bthome/src/dedup.rs:42-84 | an entry is the last accepted packet of its key, and the map holds exactly the keys whose last one is younger than two windows or came just now |
| BthomeDedup.PruningIsSafe | modules/bthome/src/dedup.rs:58-84 | on every run with a clock that does not go back, for every window, the verdicts are those of a reference that never forgets |
| BthomeDedup.AcceptedExactly | modules/bthome/src/dedup.rs:58-84 | a packet is accepted if and only if at least a window has passed since every accepted packet of its key |
| BthomeDedup.RareAreAccepted | modules/bthome/src/dedup.rs:58-84 | no packet is lost that comes at least a window after all others of its key |
| BthomeDedup.DuplicateByEntry | modules/bthome/src/dedup.rs:65-74 | with any clock: a duplicate is a packet whose key has an entry less than a window old |
| BthomeDedup.AcceptedAreSpaced | modules/bthome/src/dedup.rs:42-84 | two accepted packets of one key are at least one window apart |
| BthomeDedup.AcceptsAreFew | modules/bthome/src/dedup.rs:42-84 | a span holds at most span / window + 1 accepted packets of one key |
| BthomeDedup.VerdictsAreLocal | modules/bthome/src/dedup.rs:42-84 | a verdict is the same when the packets of all other keys are taken out of the run |
| BthomeDedup.EntryIsStrongest | modules/bthome/src/dedup.rs:65-83 | a live entry holds the strongest signal since the last accepted packet and the first gateway that reported it |
| BthomeParser.ParseBthomeV2 | modules/bthome/src/parser.rs:140-312 | the loop over an index computes the recursive reading of the payload, for every payload |
| BthomeParser.ButtonTablesAgree | modules/bthome/src/parser.rs:41-55 | the code table and the byte table of the ingest loop are inverse, except for an unknown event that carries a named code |
| BthomeParser.ParsingInvertsPrinting | modules/bthome/src/parser.rs:140-312 | under any unencrypted header, told by its bits, parsing the encoding of any measurements the table can express returns exactly those; of an encrypted payload only the header is read |
| BthomeParser.PrintingInvertsParsing | modules/bthome/src/parser.rs:159-304 | printing what was parsed gives the payload back if and only if there is no tail and its booleans are 0 or 1 |
| BthomeParser.TokensAreWhole | modules/bthome/src/parser.rs:159-304 | the measurements are the payload's whole objects, decoded one by one |
| BthomeParser.NothingIsLost | modules/bthome/src/parser.rs:159-304 | the body is its objects in order and an incomplete tail of at most three bytes |
| BthomeParser.SplitIsUnique | modules/bthome/src/parser.rs:159-304 | no other split of the body into whole objects and an incomplete tail exists |
| BthomeParser.PrefixesParseToPrefixes | modules/bthome/src/parser.rs:140-312 | a non-empty prefix of a payload parses to a prefix of its measurements |
| BthomeParser.FindFirst | modules/bthome/src/parser.rs:65-136 | the accessors' scan finds the first reading of its kind |
| BthomeParser.FirstIsFirst | modules/bthome/src/parser.rs:65-136 | none is found only if there is none, and no earlier one exists |
| BthomeParser.ReadingIsFirst | modules/bthome/src/parser.rs:66-136 | each accessor yields a value exactly if that is the first measurement of its kind |
| BthomeIngest.AppState.ProcessIngestItems | modules/bthome/src/main.rs:434-832 | the loop over the items runs the turns the lemmas are about and returns how many were processed and how many were duplicates |
| BthomeIngest.AppState.ProcessItem | modules/bthome/src/main.rs:438-832 | one turn: weak, ignored and empty items are dropped, duplicates counted, the rest recorded |
| BthomeIngest.AppState.ProcessPayload | modules/bthome/src/main.rs:597-832 | an item with a payload: parse, deduplicate under the item's packet id, describe, record |
| BthomeIngest.AppState.Deduplicate | modules/bthome/src/main.rs:606-630 | a new packet raises the processed counter, a repeated one the other, and only a new one is recorded |
| BthomeIngest.AppState.Accept | modules/bthome/src/main.rs:736-831 | readings are laid over the known ones, at most one event is logged, the device becomes known and is sent |
| BthomeIngest.AppState.PushEvent | modules/bthome/src/main.rs:548-568 | the loop that pops from the back leaves the newest 100 entries |
| BthomeIngest.Describe | modules/bthome/src/main.rs:645-734 | the readings taken in order, later kinds overriding earlier ones, give the kind, capabilities, default name and live event |
| BthomeDescription.EventIsTold | modules/bthome/src/main.rs:653-719 | motion detected, else the first door reading, else the first button event of the packet is its event |
| BthomeDescription.KindIsTold | modules/bthome/src/main.rs:647-742 | kind and default name follow motion before doors before buttons, by the measurements that occur |
| BthomeDescription.CapabilitiesAreTold | modules/bthome/src/main.rs:647-734 | a capability is listed exactly if there is a measurement of its kind |
| BthomeDescription.PatchIsTold | modules/bthome/src/main.rs:655-744 | each first reading goes into the field of its kind |
| BthomeDescription.ButtonBytesAreNamed | modules/bthome/src/main.rs:499-508 | the event names and descriptions that the bytes of a button stand for |
| BthomeDescription.ItemIsNamed | modules/bthome/src/main.rs:453-541 | the id is the MAC without separators, the name the configured one or one that ends with its last four digits |
| BthomeDescription.ItemIsDescribed | modules/bthome/src/main.rs:499-744 | what kind, capabilities, event and telemetry an item brings |
| BthomeDescription.ProcessedIsLogged | modules/bthome/src/main.rs:736-830 | a processed item is sent on with all that is known; its event is the newest of the log, or else a battery update is, unless one is among the newest five |
| BthomeIngest.TurnEffects | modules/bthome/src/main.rs:434-630 | what one item does to the counters, the deduplicator and the devices sent |
| BthomeIngest.CountersBalance | modules/bthome/src/main.rs:434-832 | over any run received = processed + deduplicated + dropped, and one device is sent for each processed |
| BthomeIngest.LogIsNewestOfAll | modules/bthome/src/main.rs:751-800 | the bounded log is the newest 100 entries of one never truncated, with the same battery events; nothing else differs |
| BthomeIngest.BatteryIsNeverLost | modules/bthome/src/main.rs:632-749 | a device whose telemetry once held a battery value always does |
| BthomeIngest.TelemetryIsLatest | modules/bthome/src/main.rs:632-749 | over any run telemetry holds, for each kind of reading, the last one a processed item reported; gateway, signal, time and category are those of the last such item |
| BthomeIngest.ProcessedUnlessRepeated | modules/bthome/src/main.rs:606-630 | an item that is not dropped is processed exactly if no packet of its key was accepted less than a window before, however long the run |
| BthomeIngest.PreparedTellsItem | modules/bthome/src/main.rs:444-464 | which items are dropped, and the whole key by which the others are deduplicated (MAC with packet id, else with the hash of the payload or button byte), is told from the item alone |
| BthomeIngest.SharedKeyExactly | modules/bthome/src/main.rs:453-486 | two reports of one broadcast share a deduplication key if and only if the MACs differ in case and surrounding space only |
| BthomeIngest.SuppressedExactly | modules/bthome/src/main.rs:606-630 | anywhere in a run, an item that is not dropped is suppressed if and only if some earlier item of its key was processed less than a window before |
| BthomeIngest.ReportsOfOneInARun | modules/bthome/src/main.rs:453-630 | two reports of one broadcast anywhere in a run: spelled alike, the later is suppressed if the earlier was processed within the window; spelled otherwise, it fares as if the earlier had never come |
| BthomeIngest.TwoReportsOfOne | modules/bthome/src/main.rs:453-630 | with nothing before and between, the second report is suppressed if and only if the MACs are spelled alike and it comes within the window; else both are sent |
| BthomeIngest.DashesMakeTwo | modules/bthome/src/main.rs:453-630 | the same MAC with colons and with dashes: two reports processed, two telemetry entries, one device id |
| ControlRegistry.RuntimeState.RegisterModule | crates/homenode-server/src/service.rs:31-63 | a known module is entered with its manifest and health, or nothing changes and the error is told |
| ControlRegistry.RuntimeState.UpdateHealth | crates/homenode-server/src/service.rs:65-73 | the health of a registered module is replaced and nothing else |
| ControlRegistry.RuntimeState.ReplaceDevices | crates/homenode-server/src/service.rs:75-97 | the registry after an upsert, accepted or rejected |
| ControlRegistry.RuntimeState.InsertDevices | crates/homenode-server/src/service.rs:85-94 | devices are inserted one by one up to the first foreign one |
| ControlRegistry.RuntimeState.MarkDisconnected | crates/homenode-server/src/service.rs:99-107 | the module counts as disconnected and its health, if any, takes the message and the time; nothing else changes |
| ControlRegistry.RunsStaySound | crates/homenode-server/src/service.rs:31-107 | over any run from the empty registry every device is filed under its own ids and owned by a registered, known module |
| ControlRegistry.ForeignCallsAreInvisible | crates/homenode-server/src/service.rs:31-107 | a call of one module leaves every other module's view alone |
| ControlRegistry.OwnCallsSeeTheirView | crates/homenode-server/src/service.rs:31-107 | a call's verdict and effect depend on its own module's view only |
| ControlRegistry.ModulesDoNotInterfere | crates/homenode-server/src/service.rs:31-107 | over every run, what the registry holds for a module is what its own calls alone would leave |
| ControlRegistry.CallsCommute | crates/homenode-server/src/service.rs:31-107 | calls of different modules give the same registry and verdicts in either order |
| ControlRegistry.ReplaceAllLeavesExactly | crates/homenode-server/src/service.rs:80-94 | an accepted replace_all leaves exactly the request's devices, the last duplicate winning |
| ModuleLifecycle.HeldExactly | crates/homenode-server/src/service.rs:31-107 | after any run a module is held if and only if some call registered it completely and as a known module; manifest, connected flag and health are told from the calls |
| ModuleLifecycle.RegisterVerdict | crates/homenode-server/src/service.rs:31-63 | the verdict on a registration, with its error, is told from its parts and the calls before |
| ModuleLifecycle.OthersAreNotFound | crates/homenode-server/src/service.rs:65-84 | reports and upserts are refused as not found exactly if the module never registered |
| ControlRegistry.RejectedUpsertAppliesItsPrefix | crates/homenode-server/src/service.rs:80-94 | an upsert is accepted exactly if its module is registered and all devices are its own; a rejected one leaves what its prefix of own devices would |
| CommandFanout.ControlService.SubscribeCommands | crates/homenode-server/src/service.rs:206-224 | a new channel holds "ready" and is added to the subscribers |
| CommandFanout.ControlService.SendCommand | crates/homenode-server/src/service.rs:172-201 | one walk over the subscribers offers the command, keeps those not found closed and counts the deliveries |
| CommandFanout.ControlService.ReceiveNext | crates/homenode-server/src/service.rs:206-224 | the oldest waiting command of an open stream is taken |
| CommandFanout.ControlService.CloseStream | crates/homenode-server/src/service.rs:172-201 | a closed stream takes nothing more; its subscriber stays until a send finds it |
| CommandFanout.RetainedIsValid | crates/homenode-server/src/service.rs:176-199 | a send drops exactly the closed subscribers it addressed |
| CommandFanout.SendReachesExactly | crates/homenode-server/src/service.rs:172-201 | at any point of a run a send appends the command to the open channels with room whose module id is empty or the target's, leaves all others as they were, and drops the closed ones it addresses |
| CommandFanout.ChannelsRefineLogs | crates/homenode-server/src/service.rs:172-224 | over any run, received and waiting commands are a log with a cursor, nothing waits in a closed channel, and an open subscriber is never removed |
| CommandFanout.LogIsReadyThenAddressed | crates/homenode-server/src/service.rs:172-224 | that log is "ready" and then, in sending order, the commands addressed to the subscriber since it subscribed, missing only those that found 32 waiting |
| CommandFanout.CompleteUnlessFull | crates/homenode-server/src/service.rs:179-195 | an open subscriber has all of them exactly if it was never found full |
| CommandFanout.FullSubscribersCount | crates/homenode-server/src/service.rs:187-200 | the reported number is that of open subscribers which hear the command, even those that drop it |
| Aggregation.AggregateAndClassify | modules/network-discovery/src/scanner.rs:689-933 | the loops end in a possible result of aggregation |
| Aggregation.FoldAccounts | modules/network-discovery/src/scanner.rs:696-869 | one entry for each key, whose sources and activity are those of the observations with that key, and whose IP and MAC are the first of them |
| AggregationNaming.OneKeyExactly | modules/network-discovery/src/scanner.rs:698-704 | two observations are of one device by address, without any by MAC in any case, without one by source |
| AggregationNaming.FoldNames | modules/network-discovery/src/scanner.rs:696-869 | whatever the classifier: the hostname is the first observed that does not start with "Host ", else the last, and names the device; vendor follows the MAC, id and interface the first observation, capabilities the link and all sources |
| AggregationNaming.OpenedIsJudged | modules/network-discovery/src/scanner.rs:725-775 | a new entry has the category the classifier gives its first observation, or that of the product found if that is generic |
| AggregationNaming.EnrichedIsJudged | modules/network-discovery/src/scanner.rs:780-854 | an entry is judged again when it gets its MAC and when it takes a hostname, by what is known then, and not otherwise |
| AggregationNaming.FoldKeepsKinds | modules/network-discovery/src/scanner.rs:796-847 | once of a specific kind an entry stays so, for every classifier |
| AggregationNaming.PeersExactly | modules/network-discovery/src/scanner.rs:873-919 | exactly the named peer and the devices behind the first router's MAC are rewritten as VPN peers |
| AggregationNaming.AggregatedAreSettled | modules/network-discovery/src/scanner.rs:689-933 | the device of every key is a VPN peer, or named and classified as its observations say; a specific kind is never lost |
| Aggregation.OneDevicePerKey | modules/network-discovery/src/scanner.rs:689-933 | the result has exactly one device for each distinct key, first by address, then by name |
| Aggregation.AggregatedIpsAreUnshared | modules/network-discovery/src/scanner.rs:698-704 | no two devices share a real IP |
| Aggregation.OrderOfObservationsIsIrrelevant | modules/network-discovery/src/scanner.rs:856-868 | permuting the observations changes neither keys, nor sources, nor activity |
| Aggregation.SortSorts | modules/network-discovery/src/scanner.rs:921-930 | the result is in order and has the same devices |
| Aggregation.FinishingKeeps | modules/network-discovery/src/scanner.rs:883-919 | the pass over the devices that names gateways and peers keeps identity and evidence |
| Aggregation.AggregationFeedsTheHistory | modules/network-discovery/src/scanner.rs:689-933 | what aggregation delivers meets what the theorems about the history demand if and only if every first MAC of a key is valid and no id, and at most one key was first seen at 0.0.0.0 |
| Aggregation.EveryDeviceKeepsItsRecordExactly | modules/network-discovery/src/scanner.rs:696-869 | from observations to the history: every device with a MAC keeps a record with its own IP if and only if keys that share their first MAC have no IP |
| DeviceLinks.LinkStore.AutoLinkDeterministicDevices | modules/web/src/main.rs:2910-3009 | the two loops, over the index and over the devices, give the links and the flag the lemmas are about |
| DeviceLinks.LinkStore.LinkDevices | modules/web/src/main.rs:845-863 | one link is added, none is repeated |
| DeviceLinks.LinkStore.UnlinkDevices | modules/web/src/main.rs:875-885 | each id is taken out of the list of the other, in both directions; a list that becomes empty stays |
| DeviceLinks.LinkAddsOne | modules/web/src/main.rs:845-863 | exactly one link is added, from the one that is no BLE device if the other is one; lists keep their order |
| DeviceLinks.UnlinkRemovesBothWays | modules/web/src/main.rs:875-885 | unlinking removes exactly the link between two ids, whichever way round it was stored |
| UnifiedView.UnlinkRestoresTheView | modules/web/src/main.rs:845-885 | linking and unlinking two ids leaves the view as it was if and only if the list was there before, or the empty one it leaves hides no list that shows something |
| UnifiedView.EmptyListHidesTheMacList | modules/web/src/main.rs:3195-3208 | a concrete case in which an interface linked under the MAC is lost |
| DeviceLinks.AutoLinkingIsIdempotent | modules/web/src/main.rs:2910-3009 | a second run changes and reports nothing |
| DeviceLinks.AutoLinkingOnlyAdds | modules/web/src/main.rs:2926-3009 | links are kept in order, a linked id gains no owner, another at most one, and a change is reported exactly if there is one |
| DeviceLinks.NewLinksJoinListedDevices | modules/web/src/main.rs:2926-3005 | a new link goes from a network device of the list to another, a BLE device of the list |
| DevicePairing.HexIsTheEnd | modules/web/src/main.rs:2889-2908 | separators make no difference: a name with "shelly" in it stands for the MAC of its last twelve characters, if these are hexadecimal |
| DevicePairing.MacsAreLast | modules/web/src/main.rs:2926-2953 | under each MAC and its first ten digits the index has the last network device that bears it |
| DevicePairing.ModelsStand | modules/web/src/main.rs:2955-2965 | for each model it has the last active device named after it, or the first if none is active |
| DevicePairing.PrimaryIsOwner | modules/web/src/main.rs:2977-2993 | the match is the owner by MAC, else by the first ten digits, else by the first model in the name |
| DevicePairing.NewLinksAreOwners | modules/web/src/main.rs:2926-3009 | every new link goes from the owner of a listed BLE device to that device |
| DevicePairing.OwnersGetLinks | modules/web/src/main.rs:2926-3009 | every listed BLE device that was not linked gets the link from its owner |
| UnifiedView.BuildUnifiedDevices | modules/web/src/main.rs:3134-3223 | the loops over maps and positions build the view the lemmas are about |
| UnifiedView.DedupByIp | modules/web/src/main.rs:3138-3165 | the loop with a map of positions keeps the preferred device of each IP in place |
| UnifiedView.DedupedIsUnshared | modules/web/src/main.rs:3138-3165 | one device of the input is left for each non-empty IP, and all without an IP |
| UnifiedView.FirstUnsurpassedIsKept | modules/web/src/main.rs:3138-3165 | for every list: on each IP that occurs, the first entry to which no later one on the IP is preferred is kept |
| UnifiedView.MacIsKeptExactly | modules/web/src/main.rs:3138-3165 | for every list and IP: the device kept has a MAC if and only if the first entry to which no later one on the IP is preferred has one |
| UnifiedView.NewerIsKeptExactly | modules/web/src/main.rs:3154-3160 | of two records on one IP the newer is kept if and only if it alone has a MAC, it alone is active, or the older alone is named generically |
| UnifiedView.DedupMayDropTheMac | modules/web/src/main.rs:3154-3160 | of two records on one IP the one with the MAC gives way exactly if the newer is active or specifically named and it is not |
| UnifiedView.NeverBothPrimaryAndSecondary | modules/web/src/main.rs:3177-3211 | for any link map no device id is shown as primary and as secondary |
| UnifiedView.OnePrimaryPerIp | modules/web/src/main.rs:3134-3223 | at most one primary is shown for each non-empty IP, and it is a device of the input |
| UnifiedView.ShownExactly | modules/web/src/main.rs:3177-3211 | an id is shown if and only if it is listed and a listed device that no link names has it, or a list that leads to it |
| UnifiedView.HiddenExactly | modules/web/src/main.rs:3177-3211 | a listed device is hidden if and only if a link names it and every owner whose list leads to it is unlisted or itself named by a link |
| UnifiedView.LinkedOwnersHide | modules/web/src/main.rs:3177-3211 | a device linked only under devices that are linked themselves is not shown |
| UnifiedView.ChainHidesItsEnd | modules/web/src/main.rs:845-863 | a concrete case: "c" linked under "b", then "b" under "a", and "c" is gone |
| UnifiedView.CyclesHideDevices | modules/web/src/main.rs:3177-3211 | devices that are linked only among themselves, as on a cycle, are shown neither as primaries nor as secondaries |
| UnifiedView.EmptyIfAllAreSecondary | modules/web/src/main.rs:3177-3211 | the view is empty exactly if every device is a secondary of some link |
| UnifiedView.TargetExactly | modules/web/src/main.rs:3166-3211 | an entry of a list stands for the last listed device that has it as MAC, else for itself |
| UnifiedView.ConfigKeyExactly | modules/web/src/main.rs:3195-3208 | a device takes the list under its id, else under its MAC, else under its address |
| Catalog.MatchProduct | crates/homenode-definitions/src/catalog.rs:165-260 | the nested loops that update the best match choose what the lemmas are about |
| Catalog.HitsAre | crates/homenode-definitions/src/catalog.rs:196-241 | the hits are exactly the matching patterns of the products considered, in catalogue order: those of the hinted vendor and generic ones, or all without a hint |
| Catalog.FitsExactly | crates/homenode-definitions/src/catalog.rs:171-226 | a full name must be the host, a generic word must be the local name or stand at its start or end, any other pattern may stand anywhere in it |
| Catalog.AgreesExactly | crates/homenode-definitions/src/catalog.rs:196-203 | a vendor agrees if and only if its id or name and the hint occur one in the other |
| Catalog.BestIsFirstGreatest | crates/homenode-definitions/src/catalog.rs:227-240 | the hit kept agrees with the vendor if any does, is the longest of those that agree as it does, and the first of these |
| Catalog.FirstByPortIsFirst | crates/homenode-definitions/src/catalog.rs:248-257 | the port rule gives the first product of the hinted vendor with an open default port, or none if there is none |
| Catalog.MatchedIsBestHit | crates/homenode-definitions/src/catalog.rs:193-259 | for every catalogue the result is the product of the one best hit, and the port rule is used only when there is no hit |
| Catalog.CatalogDatabase.AddOrUpdateVendor | crates/homenode-definitions/src/catalog.rs:104-110 | the entry with that id is replaced in place, or the new one appended |
| Catalog.CatalogDatabase.AddOrUpdateProduct | crates/homenode-definitions/src/catalog.rs:112-118 | the same for products |
| Catalog.CatalogDatabase.Merge | crates/homenode-definitions/src/catalog.rs:95-102 | all entries of the other catalogue are added or replaced in turn |
| Catalog.MergedKeepsIds | crates/homenode-definitions/src/catalog.rs:95-118 | ids stay in place, those that were missing are added, distinct ids stay distinct |
| Catalog.MergedLastWins | crates/homenode-definitions/src/catalog.rs:95-118 | for every catalogue: under each id the last entry of the other catalogue replaces the first entry that had it, and nothing else changes |
| Catalog.MergingIsIdempotent | crates/homenode-definitions/src/catalog.rs:95-118 | for every catalogue, merging the same catalogue twice is merging it once |

## Left out

- Sweeps in which two entries share an IP, which the devices added after aggregation (`scanner.rs:1372-1380`) may do: only the theorems on any sweep (order of times, counts, clean-up, normal form, outcomes) speak of them.
- Network and process I/O (ICMP, TCP, mDNS, gRPC transport, child processes, files, HTML): their results are arbitrary inputs.
- The Rhai rules and keyword lists of classification: any function from what was observed to a category.
- The concurrency of ingest tasks: items are processed one after another, as within one call.
- f32 rounding: readings are fixed-point integers. The payload hash is an arbitrary function, so keys of different payloads may collide.
- Unicode case mapping and trimming: ASCII only.
- Extracting items from JSON, `decode_hex_payload` and base64: items arrive with their bytes.
- Constant telemetry entries, icons and the percentage in the text of a battery event.
- Seeding the history from category and documentation files.
- Proto metadata copies in the history's report other than id, name, kind, status and times; demo devices appended to it.
- `find_vendor_by_mac`, `normalize_mac` and `detect_merge_candidate`: single passes that no property here depends on.
- The order of devices in a registry snapshot, and the clock used when a manifest has no health.
- Rooms, light groups, the ignore list's own updates, energy percentages and the archived on/off codec.
- Aggregation.AggregateAndClassify: `sort_by` is modelled by an insertion sort, so equal devices keep their order.
- HistoryRepetition.RepeatingChangesNothingExactly: sweeps with entries that lack a MAC or share one are not covered.
- HistoryDeterminism.OutcomesAgree: with entries or records without a MAC its conditions are sufficient, not necessary, because merges of different records may still give the same result.
- HistoryDeterminism.OutcomesAgreeExactly: assumes distinct device ids; records that share an id may be equal after the sweep whichever is taken.
- HistoryPublication.SomeOutcomeRepeatsIdsExactly: assumes that the entries' ids are distinct, as entries on distinct addresses have them.
- HistoryMacless.MaclessEndsUnderItsId: assumes that no entry without a MAC sits on the IP of a MAC-less record with another id. Otherwise the record is filed under one id and cleaned up under the other, where it may be merged with another in drain order; `MaclessIsNeverDropped` covers that case.
- CommandFanout.ControlService.CloseStream: a channel of the runtime is an entry of `channels`; what waits in it is discarded when its stream closes.
- BthomeIngest.AppState.Accept: a failed upsert to the supervisor is only logged by the program, so the model's list of sent devices includes it.
