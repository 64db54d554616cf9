# A verified model of pldm

pldm is OpenBMC's implementation of the Platform Level Data Model protocols. This project models the parts of it
that carry a protocol, a byte format or a merge across several parties, and proves what they guarantee over every
input or every run. Each module follows one component:

| module | component |
|---|---|
| `EventPolling` | polling a terminus for events, part by part, and acknowledging them (section 16.7 of DSP0248) |
| `EventAcknowledgement` | how often an event is delivered when the terminus may answer anything |
| `ThresholdLadder` | turning jumps of a numeric sensor across its thresholds into assert and deassert calls |
| `DeviceUpdater` | the firmware update agent of one device, and its runs against a firmware device (DSP0267) |
| `UpdateScript` | the exact commands of such a run, and what becomes of every component |
| `UpdateProgress` | progress of components and devices |
| `UpdateManager` | merging the verdicts and the progress of all devices, over any interleaving of their runs |
| `PackageMatching` | matching devices with the records of a package and assigning updaters |
| `PackageParser` | parsing and checking a firmware update package |
| `FirmwareData` | serving image bytes to a firmware device |
| `TransferProgress` | progress and range checks of a transfer together |
| `FruTable` | building, parsing and editing the FRU record table (Table 2 of DSP0257) |
| `StateSensorPdr` | writing, parsing and searching composite state sensor PDRs |
| `DownstreamInventory` | merging the downstream identifiers that arrive in parts |
| `RepositoryChange` | PDR repository change events |
| `EntityAssociations` | topmost entities and the object paths below them |
| `Bytes`, `Wrappers` | bytes, bits and fixed-width addition; small shared definitions |

Code that changes state is a class or a method with loops, proved against a function on values; what the component
promises is then proved of that function, over whole runs where it is a promise about runs. The decoders and the
CRC of libpldm are function parameters that carry only the contract the loops need; D-Bus answers are parameters.

The main results are `EventPolling.PollHandlesEach`, `EventAcknowledgement.DeliveredOnceIff`,
`ThresholdLadder.ChainTracks`, `DeviceUpdater.EveryRunIsSafe`, `UpdateScript.EveryRunFollowsScript` and
`AllAskedBeforeActivation`, `UpdateManager.FleetOutcome` with `UpdateScript.ActiveMeansAllComponents`,
`PackageParser.AcceptableIffReadable` and `AcceptableIsAccepted`, `FirmwareData.AnswerRightIff` and
`TransferIsWholeImage`, `FruTable.ParseInvertsEncode` and `EncodeInvertsParse`, `FruTable.FruImpl.PopulateRecords`
and `DeleteRemovesOneFru`, `StateSensorPdr.GenerateStateSensorPDR` and `ParseReadsBack`,
`DownstreamInventory.DiscoveryMergesOwnParts`, `RepositoryChange.DecodesIff` and `EncodeInvertsDecode`,
`EntityAssociations.KeysAreNamedChains` and `EveryEntityIsVisited`. Where a function specifies a method, a lemma says
in the source's terms what the function computes: which handlers, fields, identifiers, names or bytes.

## Where the code does less than one might expect

Each of these is kept as the code has it and stated with the exact condition.

- The range check of RequestFirmwareData adds in uint32_t. A request that wraps around is answered although it ends
  far beyond the image (`FirmwareData.WrappingRequestIsServed`). As long as no read has failed, the answered ones that
  get the image's bytes are exactly those that do not wrap (`ServedRightIffNoWrap`).
- All devices share one package stream, and nothing clears it after a read that ran off its end: from then on every
  answer, to any device, holds only zeros. An answered request gets the right bytes if and only if it does not wrap
  and no request before it ran off, unless it asks for zeros (`AnswerRightIff`); a transfer is right if and only if it
  loses nothing but zeros (`ReceivedRightIff`). A request runs off exactly when it wraps and the position it reads
  from does not (`RunsOffIff`; for packages of 2^32 bytes or more with a further condition), which some request does
  exactly for a component within the first 4096 bytes (`CanRunOffIff`, `OneRequestSilencesAll`). Requests that do not
  wrap never do (`NoWrapAllRight`).
- The position in the package is a uint32_t sum as well. In a package of 2^32 bytes or more, components below 2^32
  are served rightly; for the others the bytes come from the wrong place (`ServedRightIff`).
- An accepted package may have records that select components beyond the number of components, which the update then
  indexes. The selections stay in range exactly when no bitmap has a bit set from that number on
  (`PackageParser.ApplicableInRangeIff`, `AcceptedMaySelectBeyond`).
- The same addition in the progress can lower the transferred total, exactly when a counted amount wraps
  (`UpdateProgress.TotalFallsIffWrap`). After an in-order transfer, a further answered request that does not wrap
  itself can throw the progress from 97 to 0 percent exactly for images within 4096 bytes of 2^32
  (`TransferProgress.ProgressFallsIff`, `WrapLosesProgress`).
- An acknowledgement that the terminus answers with an identifier other than ACK and NONE is sent again and the
  handlers run again, without the event's data. An event whose last answer is ACK or NONE is delivered exactly
  once if and only if all its answers are; the only other event is the last one of an unfinished run, which is
  delivered once for each answer so far (`EventAcknowledgement.DeliveredOnceIff`, `AcknowledgedOnceIff`, `DeliveredTwice`).
- A threshold report whose previous state is not the one the alarms mirror repairs them exactly when they are right
  on the levels it neither raises nor clears (`ThresholdLadder.ReportTracksIff`).
- A change event applies the operation of its last record to the handles of all of its records
  (`RepositoryChange.TreatedAsAskedIff`, `MixedEventFetchesDeleted`). It ignores the announced number of records.
- A state sensor PDR is emitted even if a D-Bus lookup after the first fails; readers then see empty state sets with
  number 0 in place of the rest (`StateSensorPdr.SeenIsConfiguredIff`), and a search for set 0 finds the record
  (`LeftOutIsFoundAsZero`). `ShowsConfiguredIff` says when searches find exactly what is configured.
- Deletion asks for a value byte behind every FRU field header, the parser does not: a table that ends in an empty
  value is parsed, but nothing can be deleted from it (`FruTable.DeleteGivesUpIff`), while numRecs still falls
  (`GivingUpStillCounts`). The tables that are built here never end so.
- The sorted-merge inclusion test can miss a descriptor when a type occurs twice
  (`PackageMatching.RepeatedTypeCanBeMissed`). For a device it is right about every record in the order compared by
  if and only if the first occurrences of its descriptors rise in that order (`RightIffFirstsRise`); a device in
  order includes exactly the records that are a subset and in order (`SortedIncludesIff`). For any pair the test holds
  if and only if the record's descriptors stand at increasing positions of the device and all that are passed over
  come before the one looked for (`IncludesIff`). It never reports a
  descriptor that the device does not have (`IncludedIsSubset`).
- The parts of a discovery replace an endpoint's table if and only if its START part was decoded
  (`DownstreamInventory.ReplacesIffStartDecoded`). Otherwise the MIDDLE and END parts are lost for an endpoint
  without a table, and merged into the old table of any other, whose stale entries win (`PartsMake`,
  `StaleEntryWins`). Nothing is requested after an undecoded START, but later parts that still arrive are handled and
  followed up as usual.

## Model

| member | source | states |
|---|---|---|
| `ThresholdLadder.WalkLevels` | platform-mc/event_manager.cpp:173-209 | for two positions not on opposite sides of normal, the loop makes exactly the calls of the report and returns the code of its last call |
| `ThresholdLadder.TriggerBetween` | platform-mc/event_manager.cpp:150-209 | a jump across normal recurses on its two halves and still makes exactly the calls of the report |
| `ThresholdLadder.TriggerNumericSensorThresholdEvent` | platform-mc/event_manager.cpp:107-210 | for a ladder of any height, an undefined state is refused without a call; otherwise the calls are the report between the positions found |
| `ThresholdLadder.Find` | platform-mc/event_manager.cpp:134-149 | the position found is the first one with the state, or the end of the order |
| `ThresholdLadder.CallHandler` | platform-mc/event_manager.cpp:179-201 | the calls made at one position of the walk |
| `ThresholdLadder.ReportEffect` | platform-mc/event_manager.cpp:107-210 | what one report does to any set of alarms: exactly the passed levels are cleared or raised, also across normal |
| `ThresholdLadder.ReportTracks` | platform-mc/event_manager.cpp:107-210 | if the alarms are the levels between normal and the previous state, afterwards they are those between normal and the new one |
| `ThresholdLadder.ReportTracksIff` | platform-mc/event_manager.cpp:107-210 | for any alarms and any reported previous state, the exact condition under which they are right afterwards |
| `ThresholdLadder.ChainTracks` | platform-mc/event_manager.cpp:107-210 | after every chained run of reports the alarms are those of the last state |
| `ThresholdLadder.ReportOffFollowsOn` | platform-mc/event_manager.cpp:107-210 | every deassert but that of the previous level directly follows an assert of the same level |
| `ThresholdLadder.CrossingSplits` | platform-mc/event_manager.cpp:159-172 | a jump across normal is the report to normal followed by the report from normal, and the first half succeeds |
| `ThresholdLadder.WorseCallByCall` | platform-mc/event_manager.cpp:187-209 | a report that gets worse asserts each level passed, one call each, in order |
| `ThresholdLadder.BetterCallByCall` | platform-mc/event_manager.cpp:173-206 | a report that gets better deasserts the previous level and then, level by level, asserts and deasserts each one passed, and asserts the new one unless it is normal |
| `ThresholdLadder.ReportRcIsLastCall` | platform-mc/event_manager.cpp:150-209 | the code returned is what the handler answered to the last call, which is for the new state, or success when there is no call |
| `EventPolling.GetNextPartParameters` | platform-mc/event_manager.cpp:410-441 | asks for the next part until the last, then checks the CRC of a reassembled event and turns to its acknowledgement |
| `EventPolling.CallPolledEventHandlers` | platform-mc/event_manager.cpp:443-468 | call i is for registered handler i of the class, with the event's identifiers and data; there are as many calls as registered handlers, and none for an unregistered class |
| `EventPolling.PollForPlatformEventTask` | platform-mc/event_manager.cpp:470-572 | the loop sends, delivers and returns exactly as the step function run over the replies |
| `EventPolling.DeliveredOnlyAfterAck` | platform-mc/event_manager.cpp:470-572 | on every run, whatever the terminus answers, a delivery comes right after the acknowledgement of the same event |
| `EventAcknowledgement.DeliveredOnceIff` | platform-mc/event_manager.cpp:470-572 | on every run, whatever the terminus answers, the deliveries are, event by event, one for each answer to its acknowledgements, only the first with the event's data; an event whose last answer is ACK or NONE is delivered exactly once if and only if all its answers are; only the last event can be open, and then none of its answers is ACK or NONE |
| `EventAcknowledgement.AcknowledgedOnceIff` | platform-mc/event_manager.cpp:470-572 | when every request is answered and the poll task ends by itself, every event is acknowledged and delivered exactly once if and only if every answer to an acknowledgement is ACK or NONE |
| `EventAcknowledgement.StepKeeps` | platform-mc/event_manager.cpp:523-568 | each round keeps the record of fetched events and their answers in agreement with what was delivered and with the poll task's variables |
| `EventAcknowledgement.DeliveredTwice` | platform-mc/event_manager.cpp:529-545 | a run of three replies that delivers an event twice, the second time without data, for any event and any such answer |
| `EventPolling.RoundKeepsInStep` | platform-mc/event_manager.cpp:470-572 | each round with a protocol-following terminus keeps agent and terminus in step and makes progress, so that the exchange ends |
| `EventPolling.RunAsPredicted` | platform-mc/event_manager.cpp:470-572 | the whole exchange, its requests, deliveries and result, as a function of the terminus's queue |
| `EventPolling.DrainedSummary` | platform-mc/event_manager.cpp:470-572 | the deliveries, acknowledgements, rest and result of draining a queue |
| `EventPolling.PollDeliversQueue` | platform-mc/event_manager.cpp:410-572 | against any finite queue of events in any number of parts the poll task ends; it delivers and acknowledges exactly a prefix, in order, each with the concatenation of its own parts; a damaged event ends it neither acknowledged nor delivered |
| `EventPolling.PollHandlesEach` | platform-mc/event_manager.cpp:443-572 | against any finite queue, each event reached is handled once by every handler registered for its class, in order, with the concatenation of its own parts, and nothing else is handled |
| `EventPolling.PollDeliversAll` | platform-mc/event_manager.cpp:410-572 | with no damaged event and NONE only at the end, the whole queue is delivered |
| `EventPolling.Reach` | platform-mc/event_manager.cpp:470-572 | how far a run gets: up to the first NONE answer or the first damaged event |
| `UpdateProgress.ReportKeepsSound` | fw-update/device_updater.cpp:59-91 | reporting keeps the transferred total within the size and the percentage at 97 times their quotient |
| `UpdateProgress.TransferAtMost97` | fw-update/device_updater.cpp:40-91 | before verification a component is at most at 97 percent |
| `UpdateProgress.TotalFallsIffWrap` | fw-update/device_updater.cpp:59-91 | the transferred total falls exactly when a counted amount wraps around in uint32_t |
| `UpdateProgress.TransferNeverDecreases` | fw-update/device_updater.cpp:59-91 | within the transfer-length limit and for sizes up to 2^32 - 1 - 4096, transfer progress never decreases |
| `UpdateProgress.GetProgress` | fw-update/device_updater.cpp:1108-1139 | the summing loop gives the size-weighted mean, 100 after activation, 0 without components or bytes |
| `UpdateProgress.DeviceBetweenComponents` | fw-update/device_updater.cpp:1108-1139 | before activation the device lies between its least and its greatest component |
| `UpdateProgress.DeviceProgressIsMean` | fw-update/device_updater.cpp:1108-1139 | before activation the device's percentage is the sum of size times percentage over the sum of the sizes, rounded down |
| `UpdateProgress.HundredIffActivated` | fw-update/device_updater.cpp:1108-1139 | a device is at 100 percent exactly when its activation has completed |
| `DeviceUpdater.DeviceUpdater.constructor` | fw-update/device_updater.cpp:93-113 | one fresh progress object per applicable component, nothing sent or reported |
| `DeviceUpdater.DeviceUpdater.DeferredSource` | fw-update/device_updater.cpp:207-217 | the deferred command is sent once and forgotten |
| `DeviceUpdater.DeviceUpdater.HandleRequestUpdate` | fw-update/device_updater.cpp:172-212 | the whole new state after the response to RequestUpdate |
| `DeviceUpdater.DeviceUpdater.PassCompTable` | fw-update/device_updater.cpp:311-369 | the whole new state: next table entry, or the first component update after the last |
| `DeviceUpdater.DeviceUpdater.HandleUpdateComponent` | fw-update/device_updater.cpp:451-553 | the whole new state for each compatibility answer, including skipping on and activating or failing after the last |
| `DeviceUpdater.DeviceUpdater.HasUpdated` | fw-update/device_updater.cpp:523-534 | the search finds an updated component exactly when there is one |
| `DeviceUpdater.DeviceUpdater.RequestFwDataTimeout` | fw-update/device_updater.cpp:555-562 | the component is marked failed, cancelled and the failure reported |
| `DeviceUpdater.DeviceUpdater.RequestFwData` | fw-update/device_updater.cpp:632-682 | an accepted request reports progress and restarts the timer, a refused one changes nothing |
| `DeviceUpdater.DeviceUpdater.HandleTransferComplete` | fw-update/device_updater.cpp:685-751 | the timer goes; a failure is reported, marked and cancelled |
| `DeviceUpdater.DeviceUpdater.HandleVerifyComplete` | fw-update/device_updater.cpp:753-819 | progress goes to verify; a failure is reported, marked and cancelled |
| `DeviceUpdater.DeviceUpdater.HandleApplyComplete` | fw-update/device_updater.cpp:821-918 | success goes to the next component or to activation; a failure is reported, marked and cancelled |
| `DeviceUpdater.DeviceUpdater.HandleActivateFirmware` | fw-update/device_updater.cpp:957-1002 | success completes the activation and reports it, anything else reports failure |
| `DeviceUpdater.DeviceUpdater.SendCancelUpdateComponentRequest` | fw-update/device_updater.cpp:1004-1039 | the cancel command is sent and the deferred one dropped |
| `DeviceUpdater.DeviceUpdater.HandleCancelUpdateComponent` | fw-update/device_updater.cpp:1041-1106 | after a cancel: next component, activation of what was updated, or failure |
| `DeviceUpdater.NextKeepsInv` | fw-update/device_updater.cpp:172-1106 | every step of agent and device keeps the invariant of the exchange |
| `DeviceUpdater.EveryRunIsSafe` | fw-update/device_updater.cpp:451-553 | on every run with a protocol-following device: index in range, increasing UpdateComponent indexes, status below the index true exactly for applied components, at most one ActivateFirmware and only if something was applied, a failed phase or timeout makes the first verdict failure, success first only for a completed activation, and no end without a verdict |
| `UpdateScript.EveryRunFollowsScript` | fw-update/device_updater.cpp:172-1106 | what the agent has sent on any run is exactly RequestUpdate, every component table entry in order, UpdateComponent for each component in order, each followed by a cancel exactly if it failed, and ActivateFirmware, up to where the run has come; every component that is over was applied, failed or refused, one of the three |
| `UpdateScript.AllAskedBeforeActivation` | fw-update/device_updater.cpp:451-897 | on every run the components asked for are 0, 1, up to some k, and all of them once ActivateFirmware has been sent |
| `UpdateScript.ActivatedIsComplete` | fw-update/device_updater.cpp:451-1106 | when the activation has completed, every component was applied, failed or refused, one of the three |
| `UpdateScript.EveryRunTracked` | fw-update/device_updater.cpp:40-91 | on every run a component's progress has its size, is at Apply exactly when it was applied and untouched until it is asked for; the stage goes with the phase, and the request timer runs only during the download |
| `UpdateScript.RequestIsCounted` | fw-update/device_updater.cpp:632-682 | an accepted request within the image adds its length to the current component's total and starts the timer |
| `DeviceUpdater.RunProgress` | fw-update/device_updater.cpp:40-91 | on every run components are at most at 97 percent during the transfer, at 98 after VerifyComplete and at 99 after ApplyComplete, and the device is at 100 exactly after activation |
| `DeviceUpdater.NextKeepsSound` | fw-update/device_updater.cpp:632-636 | every step keeps all progress objects sound |
| `DeviceUpdater.NextTransferMonotone` | fw-update/device_updater.cpp:598-636 | no step lowers the progress of a component that is being transferred |
| `DeviceUpdater.RunTransferMonotone` | fw-update/device_updater.cpp:598-636 | along every run the transfer progress of a component never decreases |
| `UpdateManager.UpdateManager.UpdateDeviceCompletion` | fw-update/update_manager.cpp:235-259 | the first verdict of a device is kept; when all are in, Failed or Active is set |
| `UpdateManager.UpdateManager.LeastProgress` | fw-update/update_manager.cpp:331-342 | the least progress of the devices, none when there are none |
| `UpdateManager.UpdateManager.UpdateActivationProgress` | fw-update/update_manager.cpp:331-350 | the least progress is published exactly when it differs from the last one |
| `UpdateManager.CompletionAfter` | fw-update/update_manager.cpp:235-238 | after any verdicts, a device has an entry exactly when it reported, and the entry is its first verdict |
| `UpdateManager.CompleteDecides` | fw-update/update_manager.cpp:235-259 | each verdict keeps: Activating exactly while a device is missing, Active exactly when all are in and succeeded |
| `UpdateManager.OutcomeOfVerdicts` | fw-update/update_manager.cpp:235-259 | over any verdicts, activation leaves Activating exactly when every device has reported, and is Active exactly when all first verdicts are success |
| `UpdateManager.FurtherVerdictsChangeNothing` | fw-update/update_manager.cpp:235-259 | once all devices have reported, further verdicts change nothing |
| `UpdateManager.LeastIsHundred` | fw-update/update_manager.cpp:331-343 | the least progress is 100 exactly when every device has activated |
| `UpdateManager.FleetNextKeepsInv` | fw-update/update_manager.cpp:235-350 | every step of any device keeps the invariant of devices, manager and published progress together |
| `UpdateManager.FleetOutcome` | fw-update/update_manager.cpp:235-350 | over any interleaving of the runs of any devices: undecided exactly while a device has not reported; Active exactly when every device activated without a failed phase or timeout; 100 percent published exactly when every device has activated, whatever lastProgress started as |
| `UpdateManager.FleetPublishes` | fw-update/update_manager.cpp:331-350 | over any interleaving, the percentage last published is the current least of all devices, and no two in a row are equal |
| `UpdateManager.DeviceRuns` | fw-update/update_manager.cpp:159-203 | in any interleaving each device goes through a run of its own |
| `UpdateScript.ActiveMeansAllComponents` | fw-update/update_manager.cpp:235-259 | when the update is Active, every component of every device was applied, or refused by the device, and none failed |
| `PackageMatching.Includes` | fw-update/update_manager.cpp:220-222 | the merge loop of std::includes |
| `PackageMatching.IncludesIsSubset` | fw-update/update_manager.cpp:220-222 | for descriptors in the order compared by, inclusion holds exactly when the record's descriptors are a subset of the device's |
| `PackageMatching.DistinctTypesAreSorted` | fw-update/update_manager.cpp:220-222 | the same for descriptors of distinct types, however they were inserted |
| `PackageMatching.IncludedIsSubset` | fw-update/update_manager.cpp:220-222 | for any descriptors in any order, a match is never wrong |
| `PackageMatching.LessTrichotomy` | fw-update/update_manager.cpp:220-222 | the order compared by tells any two different descriptors apart |
| `PackageMatching.LexLessIff` | fw-update/update_manager.cpp:220-222 | descriptor data is ordered by the first byte that differs, a prefix coming first |
| `PackageMatching.RightIffFirstsRise` | fw-update/update_manager.cpp:220-222 | the test is right about every record in the order compared by if and only if the first occurrences of the device's descriptors rise |
| `PackageMatching.SortedIncludesIff` | fw-update/update_manager.cpp:220-222 | a device in order includes exactly the records that are a subset and in order |
| `PackageMatching.IncludesIff` | fw-update/update_manager.cpp:220-222 | for any device and record the test holds if and only if the record stands at increasing positions of the device and all that are passed over come before the one looked for |
| `PackageMatching.RepeatedTypeCanBeMissed` | fw-update/update_manager.cpp:220-222 | with a repeated type, a descriptor the device has can be missed |
| `PackageMatching.AssociatePkgToDevices` | fw-update/update_manager.cpp:209-233 | the nested loops produce the matches in record order and add up the components of each |
| `PackageMatching.AllMatchesAreMatches` | fw-update/update_manager.cpp:209-233 | the pairs are exactly all matching pairs of a device and a record |
| `PackageMatching.AllMatchesOrdered` | fw-update/update_manager.cpp:209-233 | they come by increasing record index |
| `PackageMatching.TotalOfMatches` | fw-update/update_manager.cpp:209-233 | the total is the running sum, match by match, of the numbers of components of the records matched |
| `PackageMatching.CreateUpdaters` | fw-update/update_manager.cpp:186-196 | each device in the list gets an updater, that of its first entry |
| `PackageMatching.FirstMatchIsLowest` | fw-update/update_manager.cpp:186-233 | the first match of a device is its matching record of lowest index |
| `PackageMatching.AssignUpdaters` | fw-update/update_manager.cpp:168-196 | exactly the matched devices get an updater, each for its lowest-index matching record |
| `PackageParser.AppendByte` | fw-update/package_parser.cpp:119-127 | the bits of one byte are appended in order |
| `PackageParser.ApplicableComponents` | fw-update/package_parser.cpp:114-128 | the nested loops give the list of selected components |
| `PackageParser.SelectedIsBitmap` | fw-update/package_parser.cpp:114-128 | the list is strictly increasing and contains k exactly when bit k mod 8 of byte k / 8 is set |
| `PackageParser.BitmapDetermined` | fw-update/package_parser.cpp:114-128 | two bitmaps of one length are equal exactly when their lists are |
| `PackageParser.RecordsAddUp` | fw-update/package_parser.cpp:24-141 | the lengths of the decoded records add up to the bytes consumed |
| `PackageParser.ComponentsAddUp` | fw-update/package_parser.cpp:143-188 | the lengths of the decoded components add up to the bytes consumed |
| `PackageParser.RecordsAreRead` | fw-update/package_parser.cpp:24-141 | record after record, each starts where the one before ends, has the decoded length, and applies exactly to the components whose bits are set |
| `PackageParser.ComponentsAreRead` | fw-update/package_parser.cpp:143-188 | component after component, each is what the decoder gives at the position where the one before ends |
| `PackageParser.TilesIff` | fw-update/package_parser.cpp:190-222 | a list tiles the package exactly when the first starts at the header's end, each next one where the one before ends, and the last ends at the package's end |
| `PackageParser.ValidatePkgTotalSize` | fw-update/package_parser.cpp:190-222 | accepts exactly the component lists that tile the package from the header's end to its own end |
| `PackageParser.TilesInOrder` | fw-update/package_parser.cpp:190-222 | tiling components come one after the other without overlap |
| `PackageParser.TilesWithin` | fw-update/package_parser.cpp:190-222 | each of them lies between the header's end and the package's end |
| `PackageParser.TilesCover` | fw-update/package_parser.cpp:190-222 | every byte after the header belongs to a component |
| `PackageParser.Parser.ParseFDIdentificationArea` | fw-update/package_parser.cpp:24-141 | the records decoded one after the other, and where they end |
| `PackageParser.Parser.ParseCompImageInfoArea` | fw-update/package_parser.cpp:143-188 | the components decoded one after the other, and where they end |
| `PackageParser.Parser.ParseRecords` | fw-update/package_parser.cpp:233-250 | the first half of parse succeeds exactly when the declared number of records was decoded |
| `PackageParser.Parser.ParseComponents` | fw-update/package_parser.cpp:251-290 | the second half succeeds exactly when number, header size, checksum and tiling agree |
| `PackageParser.Parser.Parse` | fw-update/package_parser.cpp:224-291 | parse throws exactly on the packages that are not acceptable, and keeps what it decoded |
| `PackageParser.AcceptableIffReadable` | fw-update/package_parser.cpp:224-291 | a package is acceptable if and only if its header reads as the declared numbers of records and components one behind the other, its size and checksum agree, and the components fill the rest |
| `PackageParser.AcceptableIsAccepted` | fw-update/package_parser.cpp:224-291 | in every accepted package the declared numbers are the actual ones, the header parts add up to the header size, the checksum covers them, and the components tile the rest |
| `PackageParser.ApplicableInRangeIff` | fw-update/package_parser.cpp:224-291 | in an accepted package all records select existing components only exactly when no bitmap, at the positions the records are read from, has a bit set from the number of components on |
| `PackageParser.AcceptedMaySelectBeyond` | fw-update/package_parser.cpp:224-291 | an accepted package of one component whose record selects a second one |
| `FirmwareData.PackageStream.Seek` | fw-update/device_updater.cpp:645-645 | a failed stream does not move |
| `FirmwareData.PackageStream.Read` | fw-update/device_updater.cpp:646-649 | a failed stream gives no bytes, and a read that runs off the end fails it |
| `FirmwareData.RequestFwData` | fw-update/device_updater.cpp:564-683 | the response for every offset, length and state of the stream: a length error, a range error or the bytes; and whether the stream has failed afterwards |
| `FirmwareData.ServedIff` | fw-update/device_updater.cpp:598-624 | without wrap-around, data is served exactly for lengths from 32 to 4096 that end at most 32 bytes behind the image |
| `FirmwareData.RefusedIff` | fw-update/device_updater.cpp:598-624 | a length error exactly for lengths below 32 or above 4096, a range error exactly for other lengths whose wrapped end lies beyond the wrapped limit, and otherwise as many bytes as asked for |
| `FirmwareData.ServedBytes` | fw-update/device_updater.cpp:612-653 | a served request starts in the image, has at most 32 bytes of padding, and returns exactly those image bytes then zeros |
| `FirmwareData.ServedRightIffNoWrap` | fw-update/device_updater.cpp:612-653 | while no read has failed, for every component below 2^32 and every answered request: it stays within 32 bytes of the image, and gets the image bytes then zeros, exactly when it does not wrap |
| `FirmwareData.ServedRightIff` | fw-update/device_updater.cpp:612-653 | in a package of any size: right exactly when the request does not wrap and the position read from does not either, or the bytes there are the same |
| `FirmwareData.RunsOffIff` | fw-update/device_updater.cpp:612-649 | an answered request runs off the end exactly when it wraps, the position does not, and the bytes end behind the package |
| `FirmwareData.CanRunOffIff` | fw-update/device_updater.cpp:598-649 | some request for a component runs off exactly when the component starts within the first 4096 bytes of a package below 2^32 bytes, with the exact bound for larger ones |
| `FirmwareData.ServeAll` | fw-update/device_updater.cpp:564-683 | the answers to any history of requests of any devices, and whether the stream has failed after it |
| `FirmwareData.AnswerRightIff` | fw-update/device_updater.cpp:564-683 | in any history an answered request is right if and only if it does not wrap and no request before it ran off, unless it asks for zeros |
| `FirmwareData.NoWrapAllRight` | fw-update/device_updater.cpp:564-683 | a history without wrapping requests never fails the stream and is answered rightly throughout |
| `FirmwareData.OneRequestSilencesAll` | fw-update/device_updater.cpp:612-649 | for a first component within 4096 bytes, one answered request makes all later answers zeros |
| `FirmwareData.WrappingRequestIsServed` | fw-update/device_updater.cpp:612-631 | a wrapping request beyond the image is served |
| `FirmwareData.ReceivedIsPrefix` | fw-update/device_updater.cpp:591-653 | what back-to-back requests receive, with any requests of other devices in between, none of which ran off, is a prefix of the image followed by zeros |
| `FirmwareData.ReceivedRightIff` | fw-update/device_updater.cpp:591-653 | in any history a transfer receives that prefix if and only if it loses nothing but zeros to a failed stream |
| `FirmwareData.TransferIsWholeImage` | fw-update/device_updater.cpp:591-653 | back-to-back requests that reach the end receive the whole image followed only by zeros, whatever other requests come in between, as long as none of them ran off |
| `FirmwareData.BelowIsPlaced` | fw-update/package_parser.cpp:190-222 | every component of an accepted package that lies below 2^32 and leaves room for the range check meets what the results above need |
| `FirmwareData.AcceptedIsPlaced` | fw-update/package_parser.cpp:190-222 | every component of an accepted package below 2^32 bytes does |
| `TransferProgress.InOrderIsCounted` | fw-update/device_updater.cpp:59-91 | back-to-back requests within the image are counted byte for byte |
| `TransferProgress.CanFetch` | fw-update/device_updater.cpp:598-631 | any number of bytes from 32 up to the image's size can be fetched by accepted requests |
| `TransferProgress.WrapLosesProgress` | fw-update/device_updater.cpp:59-91 | for images within 4096 bytes of 2^32, asking again for the beginning of a transferred image throws 97 percent back to 0 |
| `TransferProgress.ProgressFallsIff` | fw-update/device_updater.cpp:59-91 | an in-order transfer and one more answered request can lose progress exactly for such sizes |
| `TransferProgress.AnsweredRunMonotone` | fw-update/device_updater.cpp:598-636 | in every run whose requests are answered from a package, transfer progress never decreases |
| `FruTable.ParseFields` | libpldmresponder/pdr_utils.cpp:253-279 | the field loop decodes the fields or notices that they are cut, its index never passing the end |
| `FruTable.ParseFruRecordTable` | libpldmresponder/pdr_utils.cpp:214-285 | the parser returns the records of the table, or none for a short or damaged one |
| `FruTable.ParseInvertsEncode` | libpldmresponder/pdr_utils.cpp:214-285 | parsing the encoding of any records with at least one field each returns them |
| `FruTable.EncodeInvertsParse` | libpldmresponder/pdr_utils.cpp:214-285 | encoding what was parsed gives the bytes back |
| `FruTable.ParsedIffEncoding` | libpldmresponder/pdr_utils.cpp:214-285 | a table of at least the minimal length is parsed exactly when it is the encoding of some records |
| `FruTable.AppendTlv` | libpldmresponder/fru.cpp:279-325 | one property adds its field's bytes, a missing or empty one nothing |
| `FruTable.BuildTlvs` | libpldmresponder/fru.cpp:275-322 | the bytes are those of fields which are, in order, exactly the properties found and not empty, each with its kind and whole value, and their number is counted as a uint8_t |
| `FruTable.FruImpl.NextRSI` | libpldmresponder/fru.hpp:233-236 | the identifier counter advances by one and wraps |
| `FruTable.FruImpl.AddRecord` | libpldmresponder/fru.cpp:328-351 | a record is appended unless it has no field; the identifier is drawn with the FRU's first record |
| `FruTable.FruImpl.PopulateRecords` | libpldmresponder/fru.cpp:263-353 | what the parser reads from the table grows by exactly the configured records that have a property found and not empty, in order, with all these properties' kinds and whole values, under one new identifier that is drawn only if there is a record; the table stays an encoding |
| `FruTable.FieldsOfStored` | libpldmresponder/fru.cpp:275-322 | the fields are, in order, exactly the properties found and not empty, with their kinds and whole values |
| `FruTable.RecordsOfStored` | libpldmresponder/fru.cpp:275-351 | the records are, in order, exactly those configured that have such a property, with these fields, all under one identifier |
| `FruTable.TableIsLaid` | libpldmresponder/fru.cpp:324-345 | byte by byte, where the header of each record and each of its fields lie in the table |
| `FruTable.MeasureRecord` | libpldmresponder/fru.cpp:362-400 | the length of the record at a position, or that it is cut |
| `FruTable.FilterTable` | libpldmresponder/fru.cpp:357-414 | the table without the records of an identifier, or that the table is damaged |
| `FruTable.FruImpl.DeleteFRURecord` | libpldmresponder/fru.cpp:355-417 | the table is replaced by the filtered bytes or left alone, and numRecs falls by the records counted off; on a valid table deletion takes no error return, keeps it valid and removes exactly the records with the identifier |
| `FruTable.FilterOfEncoding` | libpldmresponder/fru.cpp:355-417 | over the encoding of any records the walk gives up, exactly when the last value is missing, or equals encoding the filtered records |
| `FruTable.DeleteIsKeep` | libpldmresponder/fru.cpp:355-417 | deletion equals filtering out the identifier, and identifier 0 empties the table |
| `FruTable.KeepPicks` | libpldmresponder/fru.cpp:355-417 | what deletion keeps are, in order, exactly the records with another identifier |
| `FruTable.DeleteGivesUpIff` | libpldmresponder/fru.cpp:362-400 | on the table of any records deletion gives up exactly when it ends in a record without fields or with an empty last value |
| `FruTable.GivingUpStillCounts` | libpldmresponder/fru.cpp:359-414 | when deletion gives up, the counter has fallen by the records before the last one that have the identifier |
| `FruTable.HistoryKeepsInv` | libpldmresponder/fru.cpp:263-417 | over any interleaving of populating and deleting, two records share an identifier exactly when they belong to the same FRU |
| `FruTable.DeleteRemovesOneFru` | libpldmresponder/fru.cpp:263-417 | over any interleaving, deleting a FRU's identifier removes exactly its records and keeps the others in order |
| `FruTable.Replay` | libpldmresponder/fru.cpp:263-417 | the object itself over any interleaving: its table is the encoding of the history's records, numRecs their number, its counter the history's |
| `FruTable.DeleteLeavesOthers` | libpldmresponder/fru.cpp:355-417 | the table after deleting a FRU's identifier encodes exactly the other FRUs' records |
| `StateSensorPdr.SizingPass` | libpldmresponder/pdr_state_sensor.hpp:37-53 | the size of the record, refused exactly when a sensor declares no states |
| `StateSensorPdr.SetStates` | libpldmresponder/pdr_state_sensor.hpp:142-149 | exactly the bits of the states are set in the bit field and nothing around it changes |
| `StateSensorPdr.WriteEntry` | libpldmresponder/pdr_state_sensor.hpp:130-150 | one entry is written, earlier bytes stay and later ones stay zero |
| `StateSensorPdr.WritingPass` | libpldmresponder/pdr_state_sensor.hpp:126-178 | the entries are written at the offsets of the sizing pass up to the first whose lookup fails, the rest stays zero |
| `StateSensorPdr.WriteHeader` | libpldmresponder/pdr_state_sensor.hpp:65-122 | the header fields in little-endian bytes |
| `StateSensorPdr.GenerateOne` | libpldmresponder/pdr_state_sensor.hpp:35-194 | when an entry throws, gives no record, or gives the record that describes it |
| `StateSensorPdr.GenerateStateSensorPDR` | libpldmresponder/pdr_state_sensor.hpp:30-195 | records for exactly the entries that give one, in order, each laid out byte by byte; the i-th has the i-th sensor identifier after the counter, modulo 65536; nothing is returned exactly when some entry throws |
| `StateSensorPdr.EmittedIff` | libpldmresponder/pdr_state_sensor.hpp:35-178 | which entries throw, and which give a record, in terms of their sensors and lookups |
| `StateSensorPdr.DescribedIsLaid` | libpldmresponder/pdr_state_sensor.hpp:65-178 | the bytes of a record: each header field at its offset, and each entry with exactly its states' bits set |
| `StateSensorPdr.IdentifiersDiffer` | libpldmresponder/pdr_state_sensor.hpp:182-182 | up to 65536 generated records have pairwise different sensor identifiers |
| `StateSensorPdr.ReadStates` | libpldmresponder/pdr_utils.cpp:178-192 | the states of a bit field, as uint8_t values |
| `StateSensorPdr.ParseStateSensorPDR` | libpldmresponder/pdr_utils.cpp:163-212 | the identifiers, the entity and the state sets of all composite entries in order |
| `StateSensorPdr.EntriesAreRead` | libpldmresponder/pdr_utils.cpp:163-212 | the entries start one behind the other, and each is read as the set number and exactly the states whose bits are set |
| `StateSensorPdr.WalkEntries` | common/utils.cpp:119-141 | the walk finds a set id exactly when one of the entries the parser sees has it |
| `StateSensorPdr.FindStateSensorPDR` | common/utils.cpp:101-154 | exactly the PDRs of the entity type that offer the state set, in order |
| `StateSensorPdr.FittingPicks` | common/utils.cpp:101-154 | in order, exactly the PDRs with the entity type in their header and the state set number at the start of an entry |
| `StateSensorPdr.FindStateSensorId` | common/utils.cpp:610-640 | the identifier of the first PDR of the entity that offers the state set, or 0xFFFF |
| `StateSensorPdr.FirstIdMeaning` | common/utils.cpp:610-640 | that identifier belongs to a matching PDR with none before it, and there is none exactly when no PDR matches |
| `StateSensorPdr.FirstIdCarries` | common/utils.cpp:610-640 | the same on the bytes of the PDRs: entity, state set number and sensor identifier at their offsets |
| `StateSensorPdr.FirstIdOfFitting` | common/utils.cpp:614-616 | narrowing down by entity type first does not change which PDR is found |
| `StateSensorPdr.ParseReadsBack` | libpldmresponder/pdr_utils.cpp:163-212 | parsing a generated record gives back its sensor id, entity and state sets, also after a failed lookup |
| `StateSensorPdr.SeenIsConfiguredIff` | libpldmresponder/pdr_state_sensor.hpp:159-178 | the state sets read are the configured ones exactly when the entries after the last one written are empty sets with number 0 |
| `StateSensorPdr.BoundariesOfSizingPass` | libpldmresponder/pdr_state_sensor.hpp:37-53 | with all lookups succeeding, the readers' entry boundaries are those of the sizing pass, the last being the record's end, and the state sets are the configured ones |
| `StateSensorPdr.ShowsIff` | libpldmresponder/pdr_state_sensor.hpp:159-178 | a record shows the state sets that were written, and set 0 if something was left out |
| `StateSensorPdr.ShowsConfiguredIff` | libpldmresponder/pdr_state_sensor.hpp:159-178 | searches see exactly the configured state sets if and only if every entry left out is for set 0 or a set that was written, and set 0 is configured if there is one |
| `StateSensorPdr.FindsGenerated` | common/utils.cpp:101-154 | a search finds any generated record exactly when its entry has the entity type and the record shows the state set |
| `StateSensorPdr.LeftOutIsFoundAsZero` | common/utils.cpp:119-141 | a record with an entry left out is found for set 0 |
| `StateSensorPdr.SearchOfGenerated` | common/utils.cpp:101-154 | searching all generated records returns exactly those that show the entity type and the state set, in order |
| `DownstreamInventory.InventoryManager.QueryDownstreamIdentifiers` | fw-update/inventory_manager.cpp:341-475 | the new table of the endpoint, all other tables unchanged, and the request that follows, for every kind of response |
| `DownstreamInventory.OnlyOwnResponsesCount` | fw-update/inventory_manager.cpp:374-475 | over any interleaving the table of an endpoint is what its own responses make of it |
| `DownstreamInventory.DiscoveryReplaces` | fw-update/inventory_manager.cpp:374-475 | a whole discovery replaces whatever table was there by the merge of its parts |
| `DownstreamInventory.MergeIsEarliestWins` | fw-update/inventory_manager.cpp:388-442 | the merge holds exactly the indexes that occur, each with its earliest entry |
| `DownstreamInventory.DiscoveryMergesOwnParts` | fw-update/inventory_manager.cpp:374-475 | after START, MIDDLE*, END or START_AND_END of an endpoint, with any other traffic in between and before, its table is the earliest-wins merge of its own parts |
| `DownstreamInventory.PartsMake` | fw-update/inventory_manager.cpp:374-475 | what the parts of a discovery make of any table, whether the START was decoded or not |
| `DownstreamInventory.ReplacesIffStartDecoded` | fw-update/inventory_manager.cpp:374-475 | the parts replace every table by their own merge if and only if the START was decoded |
| `DownstreamInventory.UndecodedStartKeepsOld` | fw-update/inventory_manager.cpp:374-475 | over any interleaving, without a decoded START the later parts go into the table of before, or are lost without one |
| `DownstreamInventory.StaleEntryWins` | fw-update/inventory_manager.cpp:376-385 | an undecoded START followed by an END leaves a stale entry in place of a new one |
| `DownstreamInventory.TableIffStarted` | fw-update/inventory_manager.cpp:376-385 | an endpoint without a table gets one exactly when a START part is decoded |
| `DownstreamInventory.DiscoveryRequests` | fw-update/inventory_manager.cpp:451-474 | each part but the last is followed by a request for the next, the last by one for the firmware parameters |
| `DownstreamInventory.TrafficRequests` | fw-update/inventory_manager.cpp:341-475 | over any traffic of all endpoints, exactly the fully decoded parts with a known flag are followed up, once each and in order, by the request for the part they point to or for the parameters |
| `RepositoryChange.GetPDRRecordHandles` | libpldmresponder/platform.cpp:633-651 | the announced entries are appended in order, or an error when there are fewer |
| `RepositoryChange.WalkChangeRecords` | libpldmresponder/platform.cpp:554-594 | the loop ends; it succeeds exactly when the data is a list of records, with the concatenation of their handles and the last operation |
| `RepositoryChange.PldmPDRRepositoryChgEvent` | libpldmresponder/platform.cpp:526-631 | which events are accepted, what is asked of the host PDR handler, which termini are dropped and have their PDRs removed, and when the modified flag is set |
| `RepositoryChange.HostPdrHandler.RemoveTermini` | libpldmresponder/platform.cpp:600-618 | erasing while iterating drops exactly the termini of the TID |
| `RepositoryChange.DecodeInvertsEncode` | libpldmresponder/platform.cpp:554-594 | decoding the encoding of any change records gives those records |
| `RepositoryChange.EncodeInvertsDecode` | libpldmresponder/platform.cpp:554-594 | data that decodes is the encoding of its records, so that every byte is consumed |
| `RepositoryChange.DecodesIff` | libpldmresponder/platform.cpp:554-594 | the data decodes to a list of records exactly when they lie in it one behind the other, operation, count and little-endian handles, up to its end |
| `RepositoryChange.AllHandlesConcatenate` | libpldmresponder/platform.cpp:578-590 | the handles passed on are those of all records, record after record |
| `RepositoryChange.AskedMeans` | libpldmresponder/platform.cpp:544-628 | a refresh of the entire repository fetches without any handle; otherwise the handles of all records are deleted if the last operation is a deletion and fetched if not |
| `RepositoryChange.MentionsModifiedIff` | libpldmresponder/platform.cpp:566-569 | for accepted data the modified flag is set exactly when a record is about modified PDRs |
| `RepositoryChange.TreatedAsAskedIff` | libpldmresponder/platform.cpp:619-628 | every handle is treated as its own record asks exactly when no record with handles differs from the last in being about deleted PDRs |
| `RepositoryChange.MixedEventFetchesDeleted` | libpldmresponder/platform.cpp:619-628 | an event with a deleted and an added PDR has both fetched |
| `EntityAssociations.FindMember` | host-bmc/utils.cpp:31-53 | the inner loops find the node among the members exactly when it is there |
| `EntityAssociations.GetParentEntities` | host-bmc/utils.cpp:16-57 | erasing while iterating equals filtering the heads, in order |
| `EntityAssociations.OutermostMembers` | host-bmc/utils.cpp:16-57 | what is left are exactly the heads that no association contains |
| `EntityAssociations.OutermostPicks` | host-bmc/utils.cpp:16-57 | they are, in order, exactly the heads that no association contains, with repetitions |
| `EntityAssociations.TopmostLeadToAll` | host-bmc/utils.cpp:16-57 | where containment is acyclic, chains from the topmost entities lead to every head |
| `EntityAssociations.ObjectPaths.AddObjectPathEntityAssociations` | host-bmc/utils.cpp:59-156 | the recursion ends by the rank and makes the updates of the path map in order |
| `EntityAssociations.ObjectPaths.Store` | host-bmc/utils.cpp:105-122 | a path that D-Bus knows is only overwritten, any other is stored |
| `EntityAssociations.VisitIsChain` | host-bmc/utils.cpp:59-156 | every update is for a chain of mapped entities from the start node |
| `EntityAssociations.ChainIsVisited` | host-bmc/utils.cpp:59-156 | every such chain gets its update |
| `EntityAssociations.PathsAreChains` | host-bmc/utils.cpp:59-156 | the paths added are exactly those of chains of mapped entities that D-Bus does not know; each stands for the last entity of such a chain, and all others keep their node |
| `EntityAssociations.KeysAreNamedChains` | host-bmc/utils.cpp:59-156 | the same with the paths spelt out: each component is the name of the entity's type followed by decimal digits, without a leading zero, whose value is the instance |
| `EntityAssociations.SiblingsShareIff` | host-bmc/utils.cpp:97-99 | entities of one type under one path share their path exactly when their instances are equal |
| `EntityAssociations.LastVisitStands` | host-bmc/utils.cpp:105-122 | where chains share a path, the last update of the path stands |
| `EntityAssociations.EveryEntityIsVisited` | host-bmc/utils.cpp:16-156 | with acyclic containment and all types mapped, walking down from the topmost entities makes an update of the path map for every entity of every association |

## Left out

- D-Bus, JSON, files, the transport and the coroutine machinery: where their answer matters it is a parameter.
- libpldm's decoders, PDR repository and CRC are function parameters; the wire sizes of its structures are constants.
- ParseFDIdentificationArea: the descriptors inside a record (fw-update/package_parser.cpp:51-109) are part of what
  the decoder reads; only the applicable components and the length are kept.
- ParseCompImageInfoArea: only offset, size and header length of a component are kept.
- QueryDownstreamIdentifiers: the descriptors of a device (fw-update/inventory_manager.cpp:390-440) come decoded.
- EveryRunIsSafe: for firmware devices that send one phase at a time and nothing after a failed one; the handlers
  themselves do not check the order.
- FleetOutcome: an update starts in Activating; a verdict given while activatePackage still runs, which the
  later assignment of Activating would overwrite (fw-update/activation.cpp:10-30), is not modelled.
- PopulateRecords: stated for counters that do not wrap and values of at most 255 bytes.
- ServedBytes: for components below 2^32 and requests that do not wrap; ServedRightIff covers the others, for
  component sizes up to 2^32 - 33.
- PackageStream: a file stream. One that cannot seek behind its end fails at the seek instead of the read.
- DeviceUpdater.constructor: for records that select existing components only; ApplicableInRangeIff says which do.
- GenerateOne: as GenerateStateSensorPDR.
- GenerateStateSensorPDR: states must fit their declared size and the size a uint8_t, since the code writes
  unchecked; ParseStateSensorPDR and the searches take records whose entries lie within them, since they read
  unchecked.
- DeviceProgress: floor of a double division is integer division.
- AddObjectPathEntityAssociations: null nodes and the rewriting of paths by an OEM handler; a path is a list of
  components.
- updateEntityAssociation, which climbs the BMC's own tree to find the path that the recursion starts from.
- The handlers' decoding of requests and encoding of responses, and logging.
- ItemUpdateManager, the single-device variant of the update manager.
- HostPDRHandler, BIOS tables and attributes, numeric effecters and sensors, FRU lookups by option, the requester
  and the command line tool: they are thin layers over D-Bus and libpldm, which are not part of this model.
