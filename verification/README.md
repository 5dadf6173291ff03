# Models and proofs for the embedded SDK

This project models the stateful, bounded parts of the embedded SDK in Dafny and proves what they keep over
whole runs. `dafny verify dfyconfig.toml` checks everything.

## What is modelled

**The BLE scanner's device registry.** `ScanModel` says what one report, one malformed report and one snapshot do to
the 128 slots, the 48 remembered devices and the window counters, with the firmware's wrapping and saturating
integers. `DeviceRegistry` does the same in place on arrays; its fields always equal what its ghost history leads to,
so every lemma about histories is a lemma about the object. The history lemmas are in `ScanHistory` (eviction order),
`ScanRecency` (the registry is a bounded, expiring move-to-front list), `ScanAggregates` (entries against the reports
that made them, averages, packet conservation), `ScanSnapshot` (what is printed, remembered and called lost) and
`ScanReports` (the printed report, field by field, against the entries and the history); `ScanWitnesses` holds the
runs that show where the scanner parts with its documentation. The snapshot sort is unstable, so a snapshot event
carries the arrangement that came out, and every result holds for every descending arrangement. `Advertisement` reads
the metadata of one advertisement out of its decoded structures, with `Utf8` for the check of names. The format bits
of a beacon are a set of six flags.

**The MQTT service.** `MqttService` is a step system: the telemetry producer, the outbound queue of four, the drop
counter and the session task, with arbitrary network outcomes and every interleaving of the two tasks.
`MqttTasks` performs the steps on fields. The producer's failed send and its counting of the drop are two steps,
as are the session task's swap of the counter and its recording of what it swapped. Besides what every run keeps, it
proves that the place of the session task is decided by its own last step and that no reachable state is a dead end.

**Reconnect backoffs.** `WifiBackoff` and `MqttBackoff` have a class each, a closed form over any interleaving of
delays and resets, and a comparison. The MQTT shift is the firmware's: it rejects shifts of 32 or more only and
drops the high bits.

**The key-value store.** `KeyValueStore` has the record codec, the store as a class over a log of records, and runs of
puts, deletes, clears, interrupted clears, reclaiming and reopening, which the class carries as ghost state. After an
interrupted clear a key may read as a value that had been replaced, but never as one that was not put under it since
the last complete clear; putting or deleting the key, or a complete clear, makes it read as it should again.
`RamFlash` is the flash its tests use.

**MQTT topics and hostnames** (`MqttTopics`, `MqttHostname`), **beacon identities** (`Bluetooth`) and **the firmware
registry of repository automation** (`XtaskRegistry`, `XtaskArgs`). `Permutations`, `MachineInts`, `BackoffCalls` and
`Wrappers` support them.

## Where the code and its documentation part

- The MQTT backoff is described as bounded exponential. It is while the shifted initial delay fits 32 bits;
  `MqttBackoff.MeetsIdealIff` gives the exact condition. With an even initial delay the base becomes zero and stays
  zero until the next session (`MqttBackoff.EvenInitialCollapses`, `MqttBackoff.IdealForeverIff`); the default policy
  gets there at its thirtieth delay (`MqttBackoff.DefaultPolicyCollapses`, `MqttService.RetriesCollapse`).
- `BackingOff` is described as waiting for a retry deadline. A waiting service says so if and only if the latest error
  that made it wait was not a live session's of kind `Capacity`, `NotReady` or `Configuration`; after one of those it
  still says `Connected` or `Resumed`, with no error (`MqttService.WaitingIsVisibleIff`,
  `MqttService.WaitingWhileConnected`).
- `DELTA` is described as the change since the preceding scan, and none for a newly seen device. The code compares with
  the last earlier scan in which the device was heard since it was inserted
  (`ScanAggregates.PreviousAverageAgrees`). That meets the description if and only if the entry dates from before the
  last snapshot exactly when the device was heard in the window before it
  (`ScanAggregates.DeltaIsSincePrecedingScanIff`). A device heard, silent and heard again is compared with the older
  scan (`ScanWitnesses.DeltaSkipsSilentScan`); one heard, evicted and inserted again prints `-`
  (`ScanWitnesses.DeltaForgetsEvicted`).
- A device is described as lost when it was silent for a whole window. Silence is always announced
  (`ScanSnapshot.SilentIsLost`), but a device that was heard is announced too when its entry was evicted, or expired
  because the snapshot came more than 15 s after its last report; `ScanSnapshot.LostExactly` is the exact condition,
  `ScanWitnesses.LateSnapshotLosesHeard` and `ScanWitnesses.EvictionLosesHeard` are such runs. All lost devices are
  printed if and only if there are at most twelve (`ScanSnapshot.AllLostArePrintedIff`); the others are only counted,
  and are not announced again.
- The age in a lost notice is described as the time since the device's final packet. It is that for a silent device;
  for one that was heard and then evicted or expired it is the age of an older packet
  (`ScanSnapshot.LostNoticeTells`).

## Assumptions

- The snapshot runs without interruption: the scanner's lock is never held across an await.
- Advertisements arrive as decoded structures.
- Of the storage engine: a fetch sees the last record of its key; a store appends one record or none; erasing
  everything leaves no record, and an interrupted erase leaves some; reclaiming space keeps the last record of each
  key and adds none.
- Of the broker session: a resumed session keeps its subscription.

## Model

| member | source | states |
|---|---|---|
| ScanHistory.RecordSlotCases | firmware/seeed/xiao-esp32c6-beacon-scanner/src/main.rs:367-403 | A report goes to its device's own slot if it has one, else to the first free slot, else, evicting a device, to the first of the entries seen longest ago; it evicts exactly when every slot holds another device |
| ScanHistory.NoAddressTwice | firmware/seeed/xiao-esp32c6-beacon-scanner/src/main.rs:364-415 | Over every run no address is held by two slots |
| ScanHistory.LastSeenIsLastReport | firmware/seeed/xiao-esp32c6-beacon-scanner/src/main.rs:372-414 | A present entry's last-seen time is the time of the last report of its address |
| ScanHistory.AbsentIsOlder | firmware/seeed/xiao-esp32c6-beacon-scanner/src/main.rs:364-425 | On a clock that never runs backwards, a device that was reported but is absent was last reported no later than every present device |
| ScanRecency.RecencyIsLastReports | firmware/seeed/xiao-esp32c6-beacon-scanner/src/main.rs:364-415 | The reference list holds exactly the reported devices with their last report times, newest first and each once |
| ScanRecency.RegistryIsRecencyList | firmware/seeed/xiao-esp32c6-beacon-scanner/src/main.rs:364-425 | With distinct report times the occupied slots are exactly the first 128 of the move-to-front list of all reported devices that were at most 15 s old at the last snapshot |
| ScanRecency.PresentIffRecent | firmware/seeed/xiao-esp32c6-beacon-scanner/src/main.rs:364-425 | A device is present if and only if fewer than 128 devices were reported after it and it was not stale at the last snapshot |
| ScanAggregates.SuffixesOfAllReports | firmware/seeed/xiao-esp32c6-beacon-scanner/src/main.rs:364-415 | The reports since insertion and since the last snapshot are both suffixes of the device's reports, so the shorter one starts at the later moment |
| ScanAggregates.EntryAgreesWithReports | firmware/seeed/xiao-esp32c6-beacon-scanner/src/main.rs:372-414 | Over every run an entry's name and manufacturer are the last ones given since its insertion, its beacon flags the union since then, and its count, sum and peak those of the reports since the later of insertion and last snapshot |
| ScanAggregates.PreviousAverageAgrees | firmware/seeed/xiao-esp32c6-beacon-scanner/src/main.rs:170-177 | The previous average is that of the last closed window in which the device was heard since its insertion, and lies between -128 and 127 |
| ScanAggregates.DeltaIsSincePrecedingScanIff | firmware/seeed/xiao-esp32c6-beacon-scanner/src/main.rs:170-177 | The previous average is that of the preceding scan, and none if the device was not heard in it, if and only if the entry was inserted before the last snapshot exactly when the device was heard in the window before it |
| ScanWitnesses.DeltaSkipsSilentScan | firmware/seeed/xiao-esp32c6-beacon-scanner/src/main.rs:170-177 | A run, for every arrangement of its snapshots, in which a device was silent in the preceding scan and is compared with an older one |
| ScanWitnesses.DeltaForgetsEvicted | firmware/seeed/xiao-esp32c6-beacon-scanner/src/main.rs:390-415 | A run in which a device was heard in the preceding scan, was evicted and inserted again, and has no previous average |
| ScanAggregates.SumWithinCount | firmware/seeed/xiao-esp32c6-beacon-scanner/src/main.rs:376-377 | Even through saturation of sum and count, the sum stays between -128 and 127 times the count |
| ScanAggregates.AverageFits | firmware/seeed/xiao-esp32c6-beacon-scanner/src/main.rs:441-448 | The average lies between -128 and 127, the cast to sixteen bits loses nothing, and it is the quotient of sum and count rounded toward zero |
| ScanAggregates.ExactUpToLimit | firmware/seeed/xiao-esp32c6-beacon-scanner/src/main.rs:376-378 | The sum is exact for every window of n reports, and the average at most the peak, if and only if n is at most 2^24 |
| ScanAggregates.DeltaFits | firmware/seeed/xiao-esp32c6-beacon-scanner/src/main.rs:237-245 | The subtraction of the previous average from the average never overflows |
| ScanAggregates.ReportCounterWraps | firmware/seeed/xiao-esp32c6-beacon-scanner/src/main.rs:365 | The packet counter is the number of reports since the last snapshot, modulo 2^32 |
| ScanAggregates.EvictionCounterWraps | firmware/seeed/xiao-esp32c6-beacon-scanner/src/main.rs:390-403 | The eviction counter is the number of evictions since the last snapshot, modulo 2^32 |
| ScanAggregates.MalformedCounterWraps | firmware/seeed/xiao-esp32c6-beacon-scanner/src/main.rs:158-163 | The malformed counter is the number of malformed reports since the last snapshot, modulo 2^32 |
| ScanAggregates.ReportsAreConserved | firmware/seeed/xiao-esp32c6-beacon-scanner/src/main.rs:364-415 | Below the wrap, the packet counter is the sum of the live entries' counts plus the counts of the entries evicted in the window |
| ScanAggregates.SnapshotConservesReports | firmware/seeed/xiao-esp32c6-beacon-scanner/src/main.rs:165-182 | The printed packet count is what the kept, the expired and the evicted entries of the window counted |
| ScanAggregates.EvictionMeansFull | firmware/seeed/xiao-esp32c6-beacon-scanner/src/main.rs:390-425 | While the eviction counter of a window is positive, all 128 slots are occupied |
| ScanSnapshot.SnapshotPicksStrongest | firmware/seeed/xiao-esp32c6-beacon-scanner/src/main.rs:183-275 | For every arrangement the sort may produce, its first twelve active devices, first twenty-four active beacons and first forty-eight active devices are the strongest ones, strongest first and none left out stronger |
| ScanReports.ReportShowsStrongest | firmware/seeed/xiao-esp32c6-beacon-scanner/src/main.rs:183-291 | The report counts the entries heard in the window at most 15 s ago and the beacons among them; its rows are the twelve strongest of the former, its beacon rows the twenty-four strongest of the latter, each once and strongest first |
| ScanReports.ReportTells | firmware/seeed/xiao-esp32c6-beacon-scanner/src/main.rs:230-291 | Every device row and beacon row says of its device what its reports say |
| ScanReports.ReportShowsLost | firmware/seeed/xiao-esp32c6-beacon-scanner/src/main.rs:195-308 | The report counts the remembered devices that no counted entry is about, and lists the first twelve of them in the order they are remembered in |
| ScanReports.RemembersTop | firmware/seeed/xiao-esp32c6-beacon-scanner/src/main.rs:205-217 | The forty-eight strongest counted entries are remembered, each once with its own address, average, time, name, manufacturer and beacon data |
| ScanReports.RecordTells | firmware/seeed/xiao-esp32c6-beacon-scanner/src/main.rs:364-415 | One report gives its device one slot, last seen now, leaves the other slots alone, counts itself modulo 2^32, and counts an eviction exactly when every slot held another device |
| ScanSnapshot.RowsTellTheReports | firmware/seeed/xiao-esp32c6-beacon-scanner/src/main.rs:230-255 | Each printed row's average, delta, peak, packet count, age, name, manufacturer and beacon label are those of the reports of its device |
| ScanSnapshot.LostAreDistinctAndSorted | firmware/seeed/xiao-esp32c6-beacon-scanner/src/main.rs:299-308 | Over every run the lost devices are distinct and strongest first, so the twelve printed are the strongest of them |
| ScanSnapshot.LostOnce | firmware/seeed/xiao-esp32c6-beacon-scanner/src/main.rs:195-217 | A device lost at one snapshot is not lost at the next |
| ScanSnapshot.SilentIsLost | firmware/seeed/xiao-esp32c6-beacon-scanner/src/main.rs:195-204 | A remembered device without reports since the last snapshot is announced |
| ScanSnapshot.LostIffSilent | firmware/seeed/xiao-esp32c6-beacon-scanner/src/main.rs:195-204 | In a window without evictions and without an expired active entry, a remembered device is lost if and only if it was silent |
| ScanSnapshot.LostExactly | firmware/seeed/xiao-esp32c6-beacon-scanner/src/main.rs:195-204 | A remembered device is lost if and only if it was silent, has no entry, or was last reported more than 15 s before the snapshot |
| ScanSnapshot.AllLostArePrintedIff | firmware/seeed/xiao-esp32c6-beacon-scanner/src/main.rs:299-308 | Every lost device is printed if and only if there are at most twelve |
| ScanSnapshot.LostNoticeTells | firmware/seeed/xiao-esp32c6-beacon-scanner/src/main.rs:205-214 | A lost notice shows the average of the window before and the time of the device's last report in it, which on a strict clock is its last report of all if and only if it has been silent since |
| ScanWitnesses.LateSnapshotLosesHeard | firmware/seeed/xiao-esp32c6-beacon-scanner/src/main.rs:195-204 | A run, for every arrangement of its snapshot, in which a device was heard, nobody was evicted, and the device is announced because the snapshot comes more than 15 s after its report |
| ScanWitnesses.EvictionLosesHeard | firmware/seeed/xiao-esp32c6-beacon-scanner/src/main.rs:390-403 | A run in which a device was heard and is announced, at any time, because 128 others were reported after it |
| ScanWitnesses.CrowdEvicts | firmware/seeed/xiao-esp32c6-beacon-scanner/src/main.rs:390-403 | After any strict run, 128 other devices reported one after the other leave no entry for the device |
| DeviceRegistry.DeviceRegistry.constructor | firmware/seeed/xiao-esp32c6-beacon-scanner/src/main.rs:354-362 | A new registry is that of the empty history |
| DeviceRegistry.DeviceRegistry.Position | firmware/seeed/xiao-esp32c6-beacon-scanner/src/main.rs:367-371 | Finds the first slot with the address |
| DeviceRegistry.DeviceRegistry.FreePosition | firmware/seeed/xiao-esp32c6-beacon-scanner/src/main.rs:390-393 | Finds the first empty slot |
| DeviceRegistry.DeviceRegistry.OldestPosition | firmware/seeed/xiao-esp32c6-beacon-scanner/src/main.rs:395-400 | Finds the first of the entries seen longest ago |
| DeviceRegistry.DeviceRegistry.Record | firmware/seeed/xiao-esp32c6-beacon-scanner/src/main.rs:364-415 | The fields after a report are those of the history extended by it: one slot taken by the device, the other slots untouched, and both counters as the slots before say |
| DeviceRegistry.DeviceRegistry.RecordMalformedReport | firmware/seeed/xiao-esp32c6-beacon-scanner/src/main.rs:158-163 | The fields after a malformed report are those of the history extended by it |
| DeviceRegistry.DeviceRegistry.RemoveStaleEntries | firmware/seeed/xiao-esp32c6-beacon-scanner/src/main.rs:417-425 | A slot is emptied if and only if it held an entry last seen more than 15 000 ms ago, and is otherwise unchanged |
| DeviceRegistry.DeviceRegistry.TakeWindow | firmware/seeed/xiao-esp32c6-beacon-scanner/src/main.rs:166-182 | The copy holds the entries last seen at most 15 000 ms ago, unchanged and in their slots, and every entry and counter starts a new window |
| DeviceRegistry.DeviceRegistry.PrintSnapshot | firmware/seeed/xiao-esp32c6-beacon-scanner/src/main.rs:165-323 | On its own fields, the report has the packet, malformed and eviction counts of the history modulo 2^32, the counts and strongest rows of devices and beacons, rows that say what the reports say, and the count and first twelve of the lost devices; the strongest forty-eight are remembered and the history is extended by the snapshot |
| DeviceRegistry.RememberStrongest | firmware/seeed/xiao-esp32c6-beacon-scanner/src/main.rs:205-214 | The remembered places hold the first forty-eight active entries and nothing after them |
| DeviceRegistry.SortByAverage | firmware/seeed/xiao-esp32c6-beacon-scanner/src/main.rs:189-193 | The slots are rearranged into descending order of average, those without one last |
| Advertisement.Parse | firmware/seeed/xiao-esp32c6-beacon-scanner/src/main.rs:485-539 | The last local name decides the name, which is there if and only if it is 1 to 29 bytes of encoded text, the last manufacturer structure the manufacturer, and each of the six formats is set if and only if some structure is a frame of it |
| Advertisement.FormatsAreShown | firmware/seeed/xiao-esp32c6-beacon-scanner/src/main.rs:505-534 | A structure sets a format if and only if it has the service or company, the length and the first bytes of that frame |
| Utf8.Utf8Iff | firmware/seeed/xiao-esp32c6-beacon-scanner/src/main.rs:572-583 | The byte check of a name accepts exactly the encodings of sequences of Unicode scalar values |
| Advertisement.DescriptionIsUnique | firmware/seeed/xiao-esp32c6-beacon-scanner/src/main.rs:485-539 | That description determines the metadata |
| Advertisement.IBeaconIsRecognised | firmware/seeed/xiao-esp32c6-beacon-scanner/src/main.rs:517-534 | The scanner recognises every frame the SDK's beacon sends as an iBeacon and as nothing else |
| Bluetooth.ParseUuid | crates/bluetooth/src/lib.rs:116-144 | Accepts exactly the texts of 36 characters with hyphens in four places and hexadecimal digits elsewhere, each pair spelling its byte high digit first; gives back every printed UUID, and printing the result gives the text in lower case |
| Bluetooth.DisplayUuid | crates/bluetooth/src/lib.rs:165-175 | Prints such a text with lower-case digits that spell the sixteen bytes |
| Bluetooth.ParsePrinted | crates/bluetooth/src/lib.rs:116-175 | The printed text of a UUID denotes it |
| Bluetooth.PrintParsed | crates/bluetooth/src/lib.rs:116-175 | Printing what a text denotes gives the text in lower case |
| Bluetooth.DigitsAreNotHyphens | crates/bluetooth/src/lib.rs:130-141 | The two digits of each byte are neighbours, neither is a hyphen, and the next byte follows at most one hyphen later |
| Bluetooth.PayloadIsInjective | crates/bluetooth/src/lib.rs:259-289 | The iBeacon payload has 23 bytes, with UUID, major, minor and measured power in their places, and determines the beacon |
| Bluetooth.FromSeed | crates/bluetooth/src/lib.rs:302-324 | Every seed gives a valid static random address, and exactly the valid ones are kept as they are |
| WifiBackoff.ReconnectBackoff.NextDelay | crates/wifi/src/lib.rs:413-430 | The delay is the initial one times two to the delays since the last reset, at most the maximum less the jitter, plus the entropy modulo one more than the jitter; it lies between one and the maximum |
| WifiBackoff.DefaultDelays | crates/wifi/src/lib.rs:384-430 | The default policy doubles from one second up to 59.5 seconds and adds up to half a second |
| WifiBackoff.ReconnectBackoff.ResetSequence | crates/wifi/src/lib.rs:432-436 | Resetting starts the sequence over |
| WifiBackoff.AccumulatorDoubles | crates/wifi/src/lib.rs:413-436 | After any interleaving of delays and resets the accumulator, bounded, is the initial delay times the power of two of the delays since the reset, bounded |
| WifiBackoff.ClosedForm | crates/wifi/src/lib.rs:413-436 | After any interleaving the delay is bounded doubling plus entropy modulo the jitter range; saturation and the final clamp never change it |
| WifiBackoff.BaseGrows | crates/wifi/src/lib.rs:419-426 | Later bases are never shorter |
| MqttBackoff.ReconnectBackoff.NextDelay | crates/mqtt/src/lib.rs:459-475 | The delay is the low 32 bits of the initial one shifted by the delays since the last reset, at most 31, bounded, plus the entropy modulo one more than the jitter, bounded again |
| MqttBackoff.ReconnectBackoff.ResetSequence | crates/mqtt/src/lib.rs:455-457 | Resetting starts the sequence over |
| MqttBackoff.ClosedForm | crates/mqtt/src/lib.rs:455-475 | After any interleaving of delays and resets the delay is the base for the delays since the reset plus jitter, and never above the maximum |
| MqttBackoff.MeetsIdealIff | crates/mqtt/src/lib.rs:460-466 | The base is the ideal bounded exponential one if and only if the shifted delay fits 32 bits or its low 32 bits still reach the maximum |
| MqttBackoff.IdealGrows | crates/mqtt/src/lib.rs:395-400 | The ideal delays are nondecreasing |
| MqttBackoff.ZeroIff | crates/mqtt/src/lib.rs:460-466 | The base is zero if and only if every set bit of the initial delay has been shifted out |
| MqttBackoff.EvenInitialCollapses | crates/mqtt/src/lib.rs:460-466 | An even initial delay has base zero from step 31 on, an odd one never |
| MqttBackoff.IdealUntilShiftedOut | crates/mqtt/src/lib.rs:459-475 | When initial times maximum fits, the base is ideal until the initial delay is shifted out, and zero exactly from then on |
| MqttBackoff.IdealForeverIff | crates/mqtt/src/lib.rs:459-475 | When initial times maximum fits, the policy is bounded exponential backoff at every step if and only if its initial delay is odd |
| MqttBackoff.DefaultPolicyCollapses | crates/mqtt/src/lib.rs:431-439 | The default policy is ideal if and only if at most 28 delays came before, and has base zero after that |
| MqttBackoff.DefaultDelaysDouble | crates/mqtt/src/lib.rs:431-475 | The first twenty-nine default delays double from one second up to sixty, with up to a quarter of a second added below that bound |
| MqttBackoff.DefaultDelayCollapses | crates/mqtt/src/lib.rs:459-475 | From the thirtieth delay on the default delay is its jitter alone |
| MqttBackoff.AgreesWithWifi | crates/mqtt/src/lib.rs:455-475 | With equal bounds and no jitter both backoffs give the same delay after the same calls exactly where the shift meets the ideal |
| MqttTopics.SplitCheckIsTheRule | crates/mqtt/src/lib.rs:162-174 | Checking a filter level by level is the positional rule of section 4.7.1 of MQTT Version 5.0, for texts of any length |
| MqttTopics.NamesAreWildcardFree | crates/mqtt/src/lib.rs:154-160 | The valid names are exactly the valid filters without wildcards |
| MqttTopics.ValidateTopicFilter | crates/mqtt/src/lib.rs:162-174 | The loop accepts exactly the filters that keep the positional rule |
| MqttTopics.NewTopicFilter | crates/mqtt/src/lib.rs:69-83 | Empty, over-long and misplaced-wildcard filters are turned down with their own errors, all others kept |
| MqttTopics.FixtureTopicText | firmware/seeed/xiao-esp32c6/src/main.rs:834-849 | The storage receives prefix, client id and suffix side by side, or stays unchanged when they do not fit |
| MqttTopics.DevelopmentTopics | firmware/seeed/xiao-esp32c6/src/main.rs:803-816 | For every valid client id the texts fit, and both topics are accepted if and only if the id has no wildcard character |
| MqttTopics.OnlyNameRejectsIff | firmware/seeed/xiao-esp32c6/src/main.rs:803-816 | The command filter is accepted and the telemetry name turned down if and only if the client id is a valid filter itself, has a plus and has no hash |
| MqttHostname.SplitCheckIsTheRule | crates/mqtt/src/lib.rs:128-144 | Checking a hostname label by label is a rule on positions: letters, digits, hyphens and dots, labels starting and ending alphanumeric, and no more than 63 characters in a row without a dot |
| MqttHostname.ValidateHostname | crates/mqtt/src/lib.rs:128-144 | The loop accepts exactly the texts that keep that rule |
| MqttHostname.AlphanumericIsListed | crates/mqtt/src/lib.rs:135-137 | The letters and digits of the rule are the sixty-two ASCII ones |
| MqttHostname.NewBrokerHostname | crates/mqtt/src/lib.rs:69-83 | Accepts exactly the hostnames of at most 253 bytes, and turns down empty, over-long and malformed ones with their own errors |
| MqttService.SendsAreConserved | firmware/seeed/xiao-esp32c6/src/main.rs:333-347 | Over every interleaving, attempted sends are queued messages, at most four, plus messages taken plus drops being counted, pending, in hand or recorded |
| MqttService.QueueIsFifo | firmware/seeed/xiao-esp32c6/src/main.rs:489-505 | Accepted messages are those taken, in order, followed by those queued |
| MqttService.PublishedInOrder | firmware/seeed/xiao-esp32c6/src/main.rs:489-505 | Published messages are a subsequence of the taken ones, and only the message in flight is undecided |
| MqttService.LossesBoundedBySessions | firmware/seeed/xiao-esp32c6/src/main.rs:450-471 | Each session loses at most one message |
| MqttService.CountersSaturate | crates/mqtt/src/lib.rs:354-393 | Publishes and received are the true counts up to saturation, and failures are the waits less the unrecorded session errors |
| MqttService.SessionsAreCounted | crates/mqtt-minimq/src/lib.rs:249-270 | Connections are the fresh sessions and resumptions the resumed ones, each up to saturation |
| MqttService.UnpublishedBoundedByCounters | crates/mqtt-minimq/src/lib.rs:333-348 | Taken less published messages are at most connections plus resumptions |
| MqttService.AttemptsCountWaits | firmware/seeed/xiao-esp32c6/src/main.rs:369-471 | The attempt counter is the number of waits since the last session, up to 255 |
| MqttService.StateAlwaysFits | firmware/seeed/xiao-esp32c6/src/main.rs:369-471 | In every reachable state the published state and error are those of the place the session task is at, of the error it last waited for, and of whether its last session was resumed |
| MqttService.PlaceTellsLastStep | firmware/seeed/xiao-esp32c6/src/main.rs:369-515 | Over every interleaving the place of the session task is decided by its own last step: it subscribes only right after a fresh session, selects only right after recording the drops, and so on for every place |
| MqttService.FreshSessionsSubscribe | firmware/seeed/xiao-esp32c6/src/main.rs:450-491 | In a live session the state is resumed if and only if the session is; a fresh session subscribes first, and a resumed one never does |
| MqttService.SessionErrorsShow | crates/mqtt-minimq/src/lib.rs:123-137 | After each error of a live session: whether the waiting service says backing off, and the last error it shows |
| MqttService.RefusalsShow | crates/mqtt-minimq/src/lib.rs:253-270 | After each refusal of a session the waiting service says backing off and shows the kind of the refusal |
| MqttService.ErrorFitsState | crates/mqtt/src/lib.rs:354-376 | A connected or resumed state has no error, a backing-off one has |
| MqttService.WaitingIsVisibleIff | crates/mqtt-minimq/src/lib.rs:435-453 | A waiting service says backing off, with the kind of the error that made it wait, if and only if that error was not a live session's of kind capacity, not ready or configuration; otherwise it says connected or resumed with no error |
| MqttService.WaitingWhileConnected | crates/mqtt-minimq/src/lib.rs:333-348 | A run in which the service waits for its retry while its snapshot says connected |
| MqttService.CanPublishAgain | firmware/seeed/xiao-esp32c6/src/main.rs:369-515 | No reachable state is a dead end: without the producer the service can establish a fresh or a resumed session again, and can then publish the oldest queued message |
| MqttService.RetriesCollapse | firmware/seeed/xiao-esp32c6/src/main.rs:508-515 | After 29 failures in a row every further retry delay is at most 250 ms |
| MqttTasks.Tasks.Keeps | firmware/seeed/xiao-esp32c6/src/main.rs:333-515 | The fields hold at most four queued messages, the ones accepted and not taken, count the waits since the last session, publish the state that fits the task's place, and account for every attempted send |
| MqttTasks.Tasks.TrySend | firmware/seeed/xiao-esp32c6/src/main.rs:336-341 | Succeeds exactly when fewer than four messages are queued, and then appends the message |
| MqttTasks.Tasks.TakeMessage | firmware/seeed/xiao-esp32c6/src/main.rs:498 | The message is the oldest queued one, and the others stay in order |
| XtaskRegistry.Collect | tools/xtask/src/main.rs:105-143 | The first phase collects exactly the packages' boards, declared firmware and exclusions, or names a package that is at fault |
| XtaskRegistry.ResolveFirmware | tools/xtask/src/main.rs:145-173 | The second phase resolves every declaration with distinct selectors, or names the declaration that is at fault |
| XtaskRegistry.FromPackages | tools/xtask/src/main.rs:104-181 | Succeeds if and only if the packages are acceptable; then firmware, boards and exclusions are exactly those the packages declare, and each selector is the board for the default variant and board, slash and variant otherwise; else the error names packages really at fault |
| XtaskRegistry.BoardIdFindsDefaultIff | tools/xtask/src/main.rs:198-203 | A board's id finds its default firmware if and only if no package of that name provides an earlier one |
| XtaskRegistry.ValidateBoardMetadata | tools/xtask/src/main.rs:293-323 | Accepts exactly a non-empty id without a slash, a non-empty target, and a runner of non-empty components without white space |
| XtaskRegistry.WhitespaceIsListed | tools/xtask/src/main.rs:312-316 | The white space of the check is the twenty-five code points with that Unicode property |
| Permutations.LessIsLexicographic | tools/xtask/src/main.rs:174 | The order of the selectors is lexicographic: a proper prefix first, and otherwise the first difference decides |
| XtaskRegistry.AcceptanceIsOrderIndependent | tools/xtask/src/main.rs:104-181 | Rearranged packages are accepted alike |
| XtaskRegistry.RegistryIsOrderIndependent | tools/xtask/src/main.rs:104-181 | Rearranged packages give the same board map, the same exclusions and the identical firmware list |
| XtaskRegistry.SortedIsUnique | tools/xtask/src/main.rs:174 | Lists of the same firmware sorted by distinct selectors are the same list |
| XtaskRegistry.SelectorIsInjective | tools/xtask/src/main.rs:325-331 | On accepted parts the selector determines board and variant |
| XtaskRegistry.SelectorsRepeatIffPairsDo | tools/xtask/src/main.rs:161-166 | Two selectors are equal if and only if board and variant are |
| XtaskRegistry.PairsAreUnique | tools/xtask/src/main.rs:161-173 | In a built registry no two firmware share board and variant |
| XtaskRegistry.FirmwareHasBoard | tools/xtask/src/main.rs:147-153 | Each firmware of a built registry has its board there, under its own id |
| XtaskRegistry.SelectorFindsIff | tools/xtask/src/main.rs:198-203 | A selector finds its firmware if and only if no package of that name provides a firmware with an earlier selector |
| XtaskRegistry.SelectedIsExact | tools/xtask/src/main.rs:347-351 | A build takes exactly the registered firmware of the board, in selector order |
| XtaskArgs.NormalizeLegacyArgs | tools/xtask/src/main.rs:245-278 | A command that starts with `build-`, except `build-all`, or with `run-` becomes the subcommand and the rest as its argument and is reported; any other arguments stay as they are |
| XtaskArgs.RewritingSplitsCommand | tools/xtask/src/main.rs:257-277 | The new command and firmware joined by a hyphen are the old command, and nothing else changes |
| XtaskArgs.RewritingIsIdempotent | tools/xtask/src/main.rs:245-278 | Rewritten arguments are not rewritten again |
| KeyValueStore.RawKeysRoundTrip | crates/storage/src/lib.rs:48-71 | Keys and their persistent form correspond one to one |
| KeyValueStore.RawKeysAreOrdered | crates/storage/src/lib.rs:48-71 | The persistent forms are ordered by namespace, then by record |
| KeyValueStore.CodecIsBijective | crates/storage/src/lib.rs:328-353 | Values and accepted record bytes correspond one to one; a value is stored after a tag of one, a tombstone is a single zero |
| KeyValueStore.SerializeInto | crates/storage/src/lib.rs:334-345 | The buffer receives the record at its start, or stays unchanged when it is too short |
| KeyValueStore.LastRecordDecides | crates/storage/src/lib.rs:417-436 | What the last record of a key says is what the map of the log has there |
| KeyValueStore.LastRecordsDetermineContents | crates/storage/src/lib.rs:363-367 | Reclaiming superseded records does not show |
| KeyValueStore.SequentialStore.Get | crates/storage/src/lib.rs:417-436 | On a key that is not dirty the plain map of the store's run decides: absent is not found, a value that fits the buffer is copied whole and its length told, a longer one is answered with the length needed; what is read was put under the key, a foreign record comes from the medium only, and the output is unchanged unless the value is found |
| KeyValueStore.FromEngine | crates/storage/src/lib.rs:478-498 | Each public error comes from exactly these errors of the engine |
| KeyValueStore.SequentialStore.Put | crates/storage/src/lib.rs:438-450 | The key has the new value; a failed put leaves the whole old or the whole new map, an over-long value changes nothing, and the run is extended by the put |
| KeyValueStore.SequentialStore.Delete | crates/storage/src/lib.rs:452-457 | The key is absent; a failed delete leaves the whole old or the whole new map, and the run is extended by the delete |
| KeyValueStore.SequentialStore.Clear | crates/storage/src/lib.rs:459-461 | Nothing is left and no key is dirty; an interrupted clear leaves some of the records, and the run is extended by what happened |
| KeyValueStore.LogRefinesMap | crates/storage/src/lib.rs:414-462 | Over every run of puts, deletes, failures, clears, interrupted clears, reclaiming and reopening, a key reads as on the plain map unless it has been neither put nor deleted since an interrupted clear |
| KeyValueStore.UninterruptedRefinesMap | crates/storage/src/lib.rs:250-255 | Unless the last clear was interrupted the whole log stands for the map, so a later complete clear restores it |
| KeyValueStore.ReadableValuesWerePut | crates/storage/src/lib.rs:211-219 | Over every run a readable value was put under its key since the last complete clear, or was found on the medium |
| KeyValueStore.InterruptedClearReverts | crates/storage/src/lib.rs:250-255 | After any run, an interrupted clear may bring back a value that had been replaced |
| KeyValueStore.RunsStayWellFormed | crates/storage/src/lib.rs:347-353 | Over every run every record is one the codec accepts, if those on the medium were |
| KeyValueStore.DeleteIsIdempotent | crates/storage/src/lib.rs:244-248 | Deleting again changes nothing |
| RamFlash.RamFlash.WriteByte | crates/storage/src/lib.rs:553-566 | An armed failure comes before the erase check; a writable byte takes its value |
| RamFlash.RamFlash.Write | crates/storage/src/lib.rs:616-625 | Exactly the bytes before the first fault arrive, the fault that comes first is reported, and the armed budget pays for every byte tried |
| RamFlash.RamFlash.Erase | crates/storage/src/lib.rs:595-614 | Whole pages become erased, up to where an armed failure stops it, and the armed budget pays for every byte |
| RamFlash.ErasedTakesAnything | crates/storage/src/lib.rs:595-625 | Erased flash takes any data |

## Left out

- The executor, timers, sockets, DNS, radio and GATT: each is an arbitrary outcome of a step.
- The insides of the MQTT, storage, BLE host and network libraries: what is used of them is listed under Assumptions.
- Printing, column formatting, the quoting of device names, error texts, spawned commands and environment variables.
- Finding a board by its package name: only the lookup by id is modelled.
- The UTF-8 check of the fixture topic text: its three parts are texts, and so is what they make together.
- The packet and replay buffers of the MQTT client, and its construction.
- The Wi-Fi supervision loop: it adds only the calls that the backoff model already allows in any order.
- DeviceRegistry.SortByAverage: stands for the library sort, of which only the result is modelled.
