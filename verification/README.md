# Verified model of the qmem daemon

A Dafny model of the stateful cores of qmem, the memory-monitoring daemon, and
proofs of what those cores keep, undo and report. `dafny verify dfyconfig.toml`
checks the whole project.

## What is modelled

- **JSON** (`Text`, `JsonTree`, `JsonFormat`, `JsonWriter`, `JsonLexer`,
  `JsonParser`, `JsonBuffer`, `JsonKeys`, `JsonSearch`, `JsonClient`, `JsonRows`,
  `JsonSection`): the
  builder over a bounded buffer with its one comma flag and sticky error, an RFC 8259
  reader (sections 2 to 7), and the client's substring searches, which start from
  wherever the last one ended. The builder class refines an unlimited writer call by
  call; the writer is shown to follow a printer that keeps the whole stack of open
  containers; the reader gives the printed value back.
- **Recycled pid tables** (`PidTable`, `ProcMem`, `ProcEvent`): chained tables over
  one pool that every round refills from slot 0 while the previous heads still
  point into it. The heap is modelled as written. What deltas and fork or exit
  events then mean is stated exactly, the intended meaning is stated beside it, and
  the two are compared by an if-and-only-if.
- **Ranking** (`TopN`, `SlabInfo`, `HeapMon`): qsort as an arbitrary sorted
  permutation with the selection loops behind it, and the hand-written exchange
  sort.
- **Plugins and services** (`ServiceManager`, `PluginLoader`, `PluginRuns`,
  `HotReload`, `PluginNames`): the
  plugin table, the registry and the open libraries over whole runs of loads,
  unloads, reloads, file events and shutdown, and the composed snapshot.
- **History** (`RingBuffer`, `SnapshotHistory`): the ring with allocation that fails in the
  middle of a push, and the document made from it.
- **Sharing and transport** (`SharedSnapshot`, `SnapshotPieces`, `Ipc`): the snapshot
  buffer as a state machine of single byte accesses by one collector and any number
  of readers, the reply framing and the client's buffer, and one theorem from the
  builder calls for a value to what the client looks up.
- **Baselines** (`FdMon`): descriptor counts, deltas and baselines over rounds.
- **/proc parsing** (`StatLine`): the stat line with any command name.

A `char` stands for one byte. Files, clocks, dlopen, malloc and inotify are
parameters: a scan is a sequence of records, an allocation or an init succeeds or
fails as the caller says. Source objects with changing fields are classes; each
method is proved against a function of the old state, and the theorems are about
those functions.

Where the code does not do what its comments intend, the code is followed:

- Deltas and process events are computed against nodes the same round is
  overwriting (`ProcMem.DeltaIsTrueIff`, `ProcMem.AppendOnlyShowsNothing`,
  `ProcEvent.ExitReportedIff`, `ProcEvent.ForkRightIff`,
  `ProcEvent.MissedExitAndFalseFork`).
- A key with a control byte other than newline, carriage return or tab is written
  unescaped, and the document is then not JSON (`JsonParser.RoundTrip`).
- A search key longer than 124 bytes loses its colon (`JsonClient.LongKeyFindsValue`).
- The client's searches do not stop at the end of a section or an array: a field that
  a section lacks is read from a later one, and the loop over one array goes on into
  the next and fills columns an object lacks from still later ones
  (`JsonClient.MissingFieldReadElsewhere`, `JsonClient.SectionLeftIff`,
  `JsonRows.RowsAreRead`, `JsonRows.ArrayLoopStopsIff`, `JsonRows.OtherArrayShown`).
- The total of the memory section is looked up by a key in quotes and is always 0
  (`JsonClient.QuotedKeyReadsNothing`).
- A printed section takes one byte too many, and ends early or late where its strings
  hold brackets that do not match (`JsonSection.ContainerPrinted`,
  `JsonSection.BracketInStringCuts`).
- A snapshot that overflows its buffer is normally too long for a reply and arrives
  empty; where a numeral that starts below the reply limit runs past the end of the
  buffer, a cut document is sent (`SnapshotPieces.FinishedSnapshot`,
  `SnapshotPieces.LongNumeralCut`).
- Plugins are unloaded by name, and the first slot of that name is taken, loaded or
  not. Two loaded plugins can share a name, and then the loader's shutdown leaves one
  library open and a delete event hits the wrong plugin (`PluginNames.NameCanRepeat`,
  `PluginRuns.ShutdownClosesAllIff`, `PluginNames.DeleteUnloadsIff`).
- With all 64 slots used, writing the file of a loaded plugin unloads it for want of a
  further slot (`HotReload.ReloadLoadsIff`, `HotReload.FullTableLosesPlugin`).

## Model

| member | source | states |
|---|---|---|
| JsonWriter.RunTracksDocument | src/common/json.c:25-159 | along every legal sequence of calls `depth` is the number of open containers, `needs_comma` is set exactly when the innermost one has a finished member and no pending key, and the text is that of a printer with an explicit stack |
| JsonWriter.StepKeepsTracking | src/common/json.c:45-159 | each single call keeps flag, depth and text in step with the stack |
| JsonWriter.FinishedText | src/common/json.c:45-159 | a legal sequence of calls that closes everything has written exactly the compact text of the value it describes |
| JsonWriter.CallsWriteText | src/common/json.c:45-189 | every value whose numbers are integers has a legal sequence of calls, and they write its text |
| JsonWriter.ScalarCalls | src/common/json.c:90-159 | each scalar call adds its own value: the string, null for a null pointer, the integer, the boolean |
| JsonTree.WrittenAsItself | src/common/json.c:75-119 | in a value exactly the bytes from the space on, but quote and backslash, are written as themselves; in a key all bytes but quote, backslash, newline, carriage return and tab |
| JsonTree.EscapesAre | src/common/json.c:101-119 | how every other byte is written: the five by backslash and letter, the remaining control bytes of a value by `\u00` and two lower-case hexadecimal digits |
| JsonFormat.ArrayText | src/common/json.c:25-69 | one more item stands before the closing bracket, behind a comma if it is not the first |
| JsonFormat.ObjectText | src/common/json.c:25-88 | one more member stands before the closing brace, its key quoted and followed by a colon |
| JsonFormat.TextIsCompact | src/common/json.c:45-189 | the text has no white space but that of the value's own strings |
| JsonLexer.EscapedStringParses | src/common/json.c:101-119 | a string value of any bytes reads back as itself |
| JsonLexer.EscapedKeyParses | src/common/json.c:75-85 | a key reads back as itself exactly when it holds no control byte but newline, carriage return and tab; any other key is refused |
| JsonParser.RoundTrip | src/common/json.c:45-189 | the text of a value parses back to that value if and only if its keys are printable in that sense, and is no JSON otherwise |
| JsonParser.CallsRoundTrip | src/common/json.c:45-189 | the same for whatever any legal, finished sequence of builder calls wrote |
| JsonParser.ControlByteInKey | src/common/json.c:75-85 | a concrete object whose text no JSON reader accepts |
| Text.NumeralFits | src/common/json.c:125-139 | no 64-bit numeral is cut by the 32-byte scratch buffer |
| Text.NumeralIs | src/common/json.c:125-139 | numerals are to the base ten, with a minus sign for negative numbers |
| Text.ReadSigned | src/cli/commands.c:34 | a printed integer followed by a non-digit is read back exactly |
| JsonBuffer.JsonBuilder.constructor | src/common/json.c:32-43 | an empty, terminated buffer; bytes behind the given size untouched |
| JsonBuffer.JsonBuilder.Write | src/common/json.c:8-19 | the buffer stays a NUL-terminated prefix of all text ever written, all of it unless `error`, and `error` is set exactly when text and NUL do not fit |
| JsonBuffer.JsonBuilder.PutKey | src/common/json.c:71-88 | a key call moves the builder as it moves the unlimited writer, overflow or not |
| JsonBuffer.JsonBuilder.PutText | src/common/json.c:90-123 | likewise for strings, with null for a null pointer |
| JsonBuffer.JsonBuilder.PutNumber | src/common/json.c:125-139 | likewise for signed and unsigned 64-bit integers |
| JsonBuffer.JsonBuilder.StartObject | src/common/json.c:45-50 | likewise for opening an object |
| JsonBuffer.JsonBuilder.EndObject | src/common/json.c:52-56 | likewise for closing an object |
| JsonBuffer.JsonBuilder.StartArray | src/common/json.c:58-63 | likewise for opening an array |
| JsonBuffer.JsonBuilder.EndArray | src/common/json.c:65-69 | likewise for closing an array |
| JsonBuffer.JsonBuilder.PutBoolean | src/common/json.c:149-153 | likewise for booleans |
| JsonBuffer.JsonBuilder.PutNothing | src/common/json.c:155-159 | likewise for null |
| JsonBuffer.JsonBuilder.KeyNumber | src/common/json.c:167-177 | key and value together are the two calls in a row |
| JsonBuffer.JsonBuilder.KeyText | src/common/json.c:161-165 | key and string together are the two calls in a row |
| JsonBuffer.JsonBuilder.KeyBoolean | src/common/json.c:185-189 | key and boolean together are the two calls in a row |
| JsonBuffer.JsonBuilder.CallAll | src/common/json.c:8-189 | any call sequence leaves text, depth and comma flag as without a limit, so none of them depends on `error` |
| JsonBuffer.FinishedBuffer | src/common/json.c:8-19 | a finished document is in the buffer whole and parses back exactly when it leaves room for the NUL; otherwise the buffer holds a proper prefix |
| JsonSearch.MatchIffMember | src/cli/commands.c:21-25 | on the text of any value with identifier keys, at every byte: `"key":`, `"key":"` and `{"key":` match there if and only if a member of that key, one with a string, or one that opens its object stands there - never inside a string, whatever its bytes |
| JsonClient.SearchFindsNext | src/cli/commands.c:171-179 | a search started at any byte of the text finds the first such member at or behind it, and nothing if there is none |
| JsonClient.FindKeyIsLookup | src/cli/commands.c:757-762 | over a whole reply the search tells whether the key occurs in the structure |
| JsonClient.PatternIs | src/cli/commands.c:21-25 | up to 124 bytes a key is searched for with quotes and colon; from there on the 128-byte buffer cuts the colon, the closing quote and then the key |
| JsonClient.LongKeyFindsValue | src/cli/commands.c:22-23 | for every identifier over 124 bytes the search matches a string value in a document without that key |
| JsonClient.JsonGetInt | src/cli/commands.c:27-35 | the cursor loop computes the integer behind the first match |
| JsonClient.GetIntIsNext | src/cli/commands.c:27-35 | started at any byte, that integer is the value of the first member of the key at or behind it, for every 64-bit integer; 0 for other kinds of value and where there is none |
| JsonClient.IntegerIs | src/cli/commands.c:27-35 | integers within 64 bits are read as they are, others as the nearest bound, what is no number as 0 |
| JsonClient.QuotedKeyReadsNothing | src/cli/commands.c:358-362 | a key passed with its own quotes matches nowhere in any reply, so the total of the memory section always reads as 0 |
| JsonClient.GetIntIsLookup | src/cli/commands.c:27-35 | over a whole reply it is the value of the first structural occurrence |
| JsonClient.SearchInSection | src/cli/commands.c:171-184 | a search that starts at the key of a section that has the key looked for finds its first occurrence inside the section |
| JsonClient.SectionLeftIff | src/cli/commands.c:171-184 | the search stays in the section, or fails, if and only if the section has the key or nothing behind its start has it |
| JsonClient.SectionReadIff | src/cli/commands.c:179-184 | the integer read is what the section has, 0 for a key it lacks, if and only if the section has the key or the next one behind its start reads as 0 |
| JsonClient.SeekIsChain | src/cli/commands.c:888-900 | on any reply a chain of searches ends at the next member of each key in turn |
| JsonClient.PathReadIff | src/cli/commands.c:888-900 | along sections the reply has, the integer read at the end is the structure's if and only if the key is there or the next one behind reads as 0 |
| JsonClient.PathIsDescent | src/cli/commands.c:888-900 | if the reply has the nested value, the client reads its integer |
| JsonClient.MissingFieldReadElsewhere | src/cli/commands.c:888-900 | a two-section document whose first section lacks the field: the client reads the second one's |
| JsonRows.ListGrowers | src/cli/commands.c:577-606 | the loop over an array's objects computes one row for each match of the opening pattern |
| JsonRows.RowIsOwn | src/cli/commands.c:580-597 | with the cursor on an object that has the fields read, every field shown is that object's own |
| JsonRows.GrowerColumns | src/cli/commands.c:580-597 | of an object that begins with pid, cmd, rss_kb and rss_delta_kb the growers' loop shows these four |
| JsonRows.RowsAreRead | src/cli/commands.c:580-606 | on any reply and from any byte: one row for each object behind it that begins with the opening key, in text order, each column filled with the next member of that name in the reply, the object's own or not |
| JsonRows.RowsAreObjects | src/cli/commands.c:580-606 | where every object met has all the columns, the rows show exactly those objects with their own fields |
| JsonRows.ArrayLoop | src/cli/commands.c:577-606 | the loop over the array under a key starts at its bracket and makes the rows of the array's own objects, then those of the objects behind the array |
| JsonRows.ArrayLoopStopsIff | src/cli/commands.c:577-606 | it shows the array's own objects only, if and only if no object that begins with the opening key stands behind the array |
| JsonRows.OtherArrayShown | src/cli/commands.c:577-606 | an empty array and a later one whose object lacks the columns: one row, with zeroes and no command |
| JsonSection.FindEnd | src/cli/commands.c:123-151 | the cursor loops find the end of the section as specified |
| JsonSection.ContainerPrinted | src/cli/commands.c:124-141 | an object or array is printed with exactly one byte more if and only if the brackets of its kind match in between, those in strings counted, or some stay open and one byte follows |
| JsonSection.ScalarPrinted | src/cli/commands.c:142-151 | a string, number or literal is printed exactly |
| JsonSection.SectionPrinted | src/cli/commands.c:104-156 | the first value under the key is printed: exactly, if no container; with one byte more, if its strings hold no bracket of its kind |
| JsonSection.BracketInStringCuts | src/cli/commands.c:133-141 | an array whose one string is a closing bracket is cut short |
| JsonClient.GetStringIsNext | src/cli/commands.c:586-597 | started at any byte, the copied field is the escaped form, up to the first quote and at most 63 bytes, of the first member of the key that holds a string; none where there is no such member |
| JsonClient.ShownExactly | src/cli/commands.c:586-597 | before the cut the field is the string itself if and only if it has no byte below the space, no quote and no backslash; then its first 63 bytes are shown |
| JsonClient.ShownToFirstQuote | src/cli/commands.c:586-597 | a string with a quote is shown in its escaped form up to the backslash before the first quote, one without in its whole escaped form |
| PidTable.CurrentLookup | src/services/procmem.c:63-77 | within a round the current table is the map from the pids accepted so far to their records |
| PidTable.HashIs | src/services/procmem.c:48-50 | a pid belongs to the bucket of its remainder, negative pids wrapping round at 32 bits |
| PidTable.PreviousLookup | src/services/procmem.c:63-77 | in the previous table a record is found as it was if its slot is not yet reused; otherwise nothing or the new record of the same pid is found |
| PidTable.PreviousLookupOfNewest | src/services/procmem.c:124-131 | for the record just inserted, exactly which of the three happens |
| PidTable.StaleWalk | src/services/procmem.c:176-182 | where a walk along old links enters the overwritten nodes |
| PidTable.UnsharedLookup | src/services/procmem.c:63-71 | had the generations their own nodes, the previous table would be the map of the last round |
| PidTable.Table.constructor | src/services/procmem.c:79-87 | empty tables over a zeroed pool |
| PidTable.Table.BeginRound | src/services/procmem.c:179-182 | the last round's records become the old layer of the pool, all links still leading to lower slots |
| PidTable.Table.Insert | src/services/procmem.c:52-77 | a record goes to the next slot while there is one, keeps every other record of this round and every old record in a higher slot, and every link leads to a lower slot |
| PidTable.Table.FindInHash | src/services/procmem.c:63-71 | the walk ends, over either table in every state of a round, with the first node of that pid on the chain |
| PidTable.Table.LookupPrevious | src/services/procevent.c:58-66 | the contents found in the previous table during a round |
| PidTable.Table.LookupCurrent | src/services/cpuload.c:83-91 | the contents found in the current table |
| ProcMem.Service.Accept | src/services/procmem.c:96-150 | the change recorded for one process, against the pool as it is at that moment |
| ProcMem.Service.Scan | src/services/procmem.c:184-193 | the records and changes of a whole scan, pool limit and list limit included |
| ProcMem.Service.Collect | src/services/procmem.c:176-222 | a round ranks exactly the changes of its accepted records against the last round's; its lists are the best twelve growers, shrinkers and sizes, show the records' own figures, are in the order of those figures, and leave nothing larger out |
| ProcMem.Service.GetPidInfo | src/services/procmem.c:324-346 | the figures are those of the pid's record; outside a round a delta is given only if no record of this round took the old slot |
| ProcMem.Service.Rounds | src/services/procmem.c:176-222 | after any sequence of scans the report depends on the last two alone |
| ProcMem.AcceptedIs | src/services/procmem.c:96-115 | a round accepts exactly the processes whose two figures could be read, 0 included, in order, the first 8192 of them |
| ProcMem.ChangesShowRecords | src/services/procmem.c:133-148 | entry i of the ranked list shows pid, command, RSS and data of record i, whatever the last round was; the list ends at 4096 |
| ProcMem.ListsShowRecords | src/services/procmem.c:195-218 | every listed entry shows a record of the scan, each list is ordered by its own figure, and no record in the list's range that the size list leaves out is larger than one in it |
| ProcMem.ChangesAreShown | src/services/procmem.c:195-211 | a positive or negative change is left out only by a full list of twelve changes at least as large |
| ProcMem.DeltaIsTrueIff | src/services/procmem.c:129-136 | a reported RSS or data delta is the true one if and only if the pid is new, sat in a higher slot, or the figure did not change |
| ProcMem.UnsharedDeltaIsTrue | src/services/procmem.c:129-136 | with unshared nodes the computed deltas would always be the true ones |
| ProcMem.AppendOnlyShowsNothing | src/services/procmem.c:195-211 | when pids persist in order and new ones come last, every delta is 0 and growers and shrinkers are empty |
| ProcMem.ListedChangesAreTrue | src/services/procmem.c:195-211 | every listed grower or shrinker is in both scans and has changed by the figure shown; no pid is in both lists |
| ProcEvent.ExitsAreLeftovers | src/services/procevent.c:151-162 | exit events are exactly the records in slots this round did not reuse whose pid is gone, each once |
| ProcEvent.ForksAre | src/services/procevent.c:144-147 | fork events are exactly the records whose pid the overwritten previous table does not show |
| ProcEvent.ForksInOrder | src/services/procevent.c:117-149 | each fork once, in the order of the scan |
| ProcEvent.SameBucketIff | src/services/procevent.c:46-48 | two pids share a bucket exactly if they differ by a multiple of 4096 |
| ProcEvent.ExitReportedIff | src/services/procevent.c:151-162 | the end of a process is reported if and only if its old slot lies above this round's records |
| ProcEvent.ForkRightIff | src/services/procevent.c:144-147 | the fork event of a process is there exactly if it should be, if and only if a new process does not take over a slot of its own bucket and a surviving one sat higher or does take over such a slot |
| ProcEvent.MissedExitAndFalseFork | src/services/procevent.c:109-166 | two-process scans with a missed exit and a false fork |
| ProcEvent.UnsharedEventsBalance | src/services/procevent.c:109-166 | over pools that share no node the exit scan reports exactly the processes missing from the new scan, each once, the lookups exactly those missing from the old one, and the counts differ by the growth of the number of processes |
| ProcEvent.SharedScanIsExits | src/services/procevent.c:151-162 | the same scan over the one shared pool yields the exit events of the round |
| ProcEvent.UnsharedFindIsMembership | src/services/procevent.c:58-66 | a lookup in an unshared pool is membership in the last scan |
| ProcEvent.EventRing.Add | src/services/procevent.c:74-99 | the ring holds the last 100 events and the counters count all of them |
| ProcEvent.RoundAdds | src/services/procevent.c:74-99 | a round adds its forks in order and then its exits, with pid, command and time of each, and the fork and exit counters grow by their numbers, the exec counter not at all |
| ProcEvent.EventRing.GetRecent | src/services/procevent.c:236-246 | the newest events first, as many as asked for and held |
| ProcEvent.Service.Scan | src/services/procevent.c:117-149 | the fork events of a scan are appended in scan order |
| ProcEvent.Service.ScanBucket | src/services/procevent.c:153-161 | the walk over one old chain reports that bucket's leftovers and ends |
| ProcEvent.Service.Collect | src/services/procevent.c:109-166 | a round appends its fork events and then its exit events, each with its process and time, and moves the counters by their numbers; nothing in a first round or when /proc cannot be opened |
| TopN.FirstAreTop | src/services/procmem.c:195-218 | the first qualifying entries of any sorted permutation are the best: in order, from the list, as many as fit, none left out that beats one kept |
| TopN.TopMeans | src/services/procmem.c:195-218 | entry by entry: in order, qualifying, from the list, and one that qualifies is left out only by a full list of entries as good |
| TopN.TakeFirst | src/services/procmem.c:198-202 | the selection loop keeps the first qualifying entries |
| TopN.SelectTop | src/services/fdmon.c:219-234 | the same whatever order qsort left among equals |
| TopN.FilterPermutation | src/services/fdmon.c:225-234 | how many entries qualify does not depend on the sort |
| SlabInfo.ChangesAre | src/services/slabinfo.c:137-155 | c is a change exactly if a line of this scan and the first line of its name in the last one differ by at least 524288 bytes in size, and its six fields are the figures and differences of these two lines |
| SlabInfo.ChangesInOrder | src/services/slabinfo.c:137-155 | each change once, in the order of the lines |
| SlabInfo.ListsShowCaches | src/services/slabinfo.c:157-173 | every grower is larger than its namesake by the delta shown, every shrinker smaller, in order of delta, and a cache that moved is left out only by a full list of twenty that moved at least as far |
| SlabInfo.Service.ListChanges | src/services/slabinfo.c:137-155 | the loop over the caches builds that list |
| SlabInfo.Service.Collect | src/services/slabinfo.c:118-176 | growers and shrinkers are the best twenty of the changes and show the two scans as above; a failed read leaves them as they were |
| HeapMon.MergeTargets | src/services/heapmon.c:154-173 | the targets are both lists without repetition, growers first, and never more than twelve |
| HeapMon.ExchangeSort | src/services/heapmon.c:238-249 | in descending order of `rss - initialRss`, the same multiset, nothing behind the results touched |
| HeapMon.BringLargest | src/services/heapmon.c:240-248 | one inner pass puts an entry of the largest `rss - initialRss` in front |
| ServiceManager.Manager.Add | src/daemon/service_manager.c:23-42 | a service is appended and initialised, or nothing changes |
| ServiceManager.Manager.Remove | src/daemon/service_manager.c:44-71 | the first occurrence is destroyed and removed, the order of the others kept |
| ServiceManager.Manager.Close | src/daemon/service_manager.c:146-157 | every registered service is destroyed once, in order |
| ServiceManager.RegisterIs | src/daemon/service_manager.c:23-42 | a registration is refused exactly with 16 services registered or by a failing init, and then leaves no trace; otherwise the service stands last and its init, if it has one, is logged |
| ServiceManager.UnregisterIs | src/daemon/service_manager.c:44-71 | the first occurrence goes, its destroy is called if it has one, and a service not registered changes nothing |
| ServiceManager.EndsAre | src/daemon/service_manager.c:146-157 | the shutdown destroys exactly the services with the callback, each once, in order |
| ServiceManager.OrderSurvives | src/daemon/service_manager.c:23-71 | after any mix of register and unregister the services stand in the order of their registration |
| ServiceManager.RegisteredAreKeptOrRemoved | src/daemon/service_manager.c:23-71 | and they are the successful registrations that have not been removed |
| ServiceManager.Manager.SnapshotAll | src/daemon/service_manager.c:115-144 | the builder ends as after the calls of the composed snapshot |
| ServiceManager.MembersAre | src/daemon/service_manager.c:126-138 | exactly the enabled services have a member, in registration order, each with its own value or null |
| ServiceManager.SnapshotText | src/daemon/service_manager.c:115-144 | the text around the services: timestamp first, then the `services` object |
| ServiceManager.SnapshotIsOneObject | src/daemon/service_manager.c:115-144 | if every enabled service's callback emits one value, the snapshot is one object whose `services` member lists exactly the enabled services in registration order, null for those without a callback |
| PluginLoader.Loader.LoadPlugin | src/daemon/plugin_loader.c:85-155 | a load changes all three tables or none; every failed load closes what it opened |
| PluginLoader.LoadSucceedsIff | src/daemon/plugin_loader.c:85-155 | a loaded path returns 0 and changes nothing; any other load returns 0 exactly if there are fewer than 64 slots, the library opens and has the info symbol with version 1, the first slot of its name is not loaded, fewer than 16 services are registered and the init, if any, succeeds; otherwise it returns -1 and leaves all three tables as they were |
| PluginLoader.LoadFillsSlot | src/daemon/plugin_loader.c:137-151 | the slot filled is the path's own or the next one, holds path and name cut to 511 and 63 bytes, the handle and the service, and all others stay |
| PluginLoader.Loader.UnloadPlugin | src/daemon/plugin_loader.c:157-176 | an unload vacates the first slot of the name, if loaded, with its service and library |
| PluginLoader.UnloadIs | src/daemon/plugin_loader.c:157-176 | 0 and the first slot of the name vacated, its library closed, its service unregistered, if that slot is loaded; otherwise -1 and no change |
| PluginLoader.Loader.ReloadPlugin | src/daemon/plugin_loader.c:178-186 | unload by the slot's name, then load by path |
| PluginLoader.Loader.CheckUpdates | src/daemon/plugin_loader.c:258-293 | the events are handled one by one in order |
| PluginLoader.Loader.ShutdownDaemon | src/daemon/daemon.c:284-303 | loader first, then the registry |
| PluginLoader.Loader.ShutdownPlugins | src/daemon/plugin_loader.c:295-313 | the unload loop over all slots |
| PluginLoader.Loader.LoadedCount | src/daemon/plugin_loader.c:315-321 | the number of loaded plugins' services |
| PluginLoader.RunKeepsAgreement | src/daemon/plugin_loader.c:85-293 | every run from an agreeing state keeps registered services exactly those of loaded slots, open libraries exactly theirs, and slot paths pairwise distinct |
| PluginLoader.ReachableAgrees | src/daemon/plugin_loader.c:85-293 | so they are in every state reachable from a fresh start |
| PluginLoader.RegisteredIsOpen | src/daemon/plugin_loader.c:130-151 | no registered service belongs to a closed library |
| PluginRuns.RunKeepsOrder | src/daemon/service_manager.c:23-71 | along every run init and destroy of a service alternate, and it is up exactly while registered |
| PluginRuns.EveryInitIsDestroyed | src/daemon/daemon.c:284-303 | after the shutdown of any run every successful init has been matched by exactly one destroy, shared names or not |
| PluginRuns.CloseSlotsCloses | src/daemon/plugin_loader.c:305-310 | the unload loop closes exactly the loaded slots that are the first of their name |
| PluginRuns.ShutdownClosesAllIff | src/daemon/plugin_loader.c:295-313 | no library stays open if and only if every loaded slot is the first of its name |
| PluginNames.NameCanRepeat | src/daemon/plugin_loader.c:122-128 | from a fresh start, four calls that end with two loaded plugins of one name; the loader's shutdown leaves the second one's library open |
| PluginNames.DeleteUnloadsIff | src/daemon/plugin_loader.c:283-291 | a delete event unloads the plugin of its path if and only if its slot is the first of its name; otherwise it unloads at most the plugin in that first slot, and nothing else |
| PluginNames.LoadKeepsNamesUniqueIff | src/daemon/plugin_loader.c:122-128 | the duplicate check refuses a name whose first slot is loaded; names stay unique if and only if no loaded slot had the name |
| HotReload.HotReloadConverges | src/daemon/plugin_loader.c:258-293 | after any list of events whose writes find room: a path - the directory, a slash, a name and `.so` - is loaded exactly when its last event was a write or move-in, and then from the library that event found; a path without events keeps its plugin |
| HotReload.SuffixTest | src/daemon/plugin_loader.c:273-277 | a file counts exactly if its name is something before `.so`, that is of four bytes or more with this end |
| HotReload.HandleIs | src/daemon/plugin_loader.c:273-292 | other files and other events change nothing, a write reloads the path, a deletion unloads it |
| HotReload.OneFileEvent | src/daemon/plugin_loader.c:273-292 | for any name: a write of its `.so` leaves that path loaded from the written library exactly if there was room, a deletion leaves it unloaded, no other path changes |
| HotReload.HotReloadWithRoom | src/daemon/plugin_loader.c:258-293 | the same with the room judged from the start: slots and written paths below 64, loaded plugins and written paths at most 16 |
| HotReload.ReloadLoadsIff | src/daemon/plugin_loader.c:85-186 | a write event leaves its plugin loaded, from the new library, if and only if there is a slot beyond those in use, its own not counting, and a service place; other paths keep their plugin |
| HotReload.FullTableLosesPlugin | src/daemon/plugin_loader.c:93-97 | a run from a fresh start to a full table with one loaded plugin, which any write of its file then takes away |
| RingBuffer.RingHoldsLatest | src/daemon/ringbuffer.c:33-92 | after any mix of successful and failed pushes and clears the ring holds the last `capacity` stored snapshots, the oldest without its data exactly when the ring is full and the last push failed |
| RingBuffer.LastOfIs | src/daemon/ringbuffer.c:33-58 | what is kept are the newest items in their order |
| RingBuffer.Ring.Create | src/daemon/ringbuffer.c:8-23 | an empty ring with its two blocks, or nothing allocated where either allocation fails |
| RingBuffer.Ring.PushData | src/daemon/ringbuffer.c:33-58 | one step of that history; live blocks remain exactly those of the non-null slots, and nothing is freed twice |
| RingBuffer.Ring.Get | src/daemon/ringbuffer.c:60-66 | the entry at an index from the oldest shows time, size and NUL-terminated copy of the item there, or no copy where that was lost |
| RingBuffer.Ring.GetRecent | src/daemon/ringbuffer.c:68-74 | the same from the newest, so that both ways of access mirror each other |
| RingBuffer.Ring.ClearAll | src/daemon/ringbuffer.c:80-92 | an empty history and no block of the ring left alive |
| RingBuffer.Ring.Destroy | src/daemon/ringbuffer.c:25-31 | every block of the ring, its own two included, has been freed once, and nothing else |
| SnapshotHistory.HistoryDocument | src/daemon/daemon.c:129-157 | the document lists the newest entries that still have data, newest first, with time and position |
| SnapshotHistory.ItemsAre | src/daemon/daemon.c:140-150 | of the newest n entries exactly those with data are listed, newest first, with their time and position |
| SnapshotHistory.HistoryText | src/daemon/daemon.c:129-157 | the text around them |
| SharedSnapshot.RunSafe | src/daemon/daemon.c:253-256 | in every interleaving of byte accesses the last byte stays NUL, every scan stays inside the buffer, and every reply declares exactly the bytes sent, below the limit |
| SharedSnapshot.ScanStops | src/daemon/ipc_server.c:63 | a scan can always go on and ends at the last byte at the latest |
| SharedSnapshot.QuietRead | src/daemon/ipc_server.c:59-69 | while the collector rests, a reader sends the whole text, or nothing when it is too long |
| SharedSnapshot.RunInStep | src/common/json.c:8-19 | in every interleaving the collector holds what one thread's bounded buffer would hold of the same writes |
| SharedSnapshot.HoldIs | src/common/json.c:8-19 | that is all of the text, without error, exactly if it fits with its NUL, and a proper prefix otherwise |
| SharedSnapshot.HoldIsCutIff | src/common/json.c:8-19 | the prefix is short enough for a reply if and only if one write starts below the reply limit and runs past the end of the buffer |
| SnapshotPieces.FinishedSnapshot | src/daemon/daemon.c:253-256 | the buffer holds a finished document whole exactly if it fits; otherwise a proper prefix, short enough for a reply if and only if a numeral that starts below the reply limit runs past the end |
| SnapshotPieces.KeptBeforeNumeral | src/common/json.c:125-139 | what is then kept is everything before that numeral |
| SnapshotPieces.LongNumeralCut | src/daemon/ipc_server.c:63-66 | a family of documents of which a cut text below the reply limit is left |
| Ipc.HandleClient | src/daemon/ipc_server.c:35-109 | a wrong magic gets no answer; otherwise the reply carries the payload for its kind, the right magic, version, kind, sequence number and length, and fits every client buffer |
| Ipc.ReplyIs | src/daemon/ipc_server.c:57-88 | status and snapshot requests get the snapshot, history requests the history, whole if shorter than 262128 bytes and empty if missing or longer, whatever the other source |
| Ipc.OtherReplies | src/daemon/ipc_server.c:90-100 | a services request and an unknown one get their fixed texts |
| Ipc.ReceiveReply | src/cli/client.c:50-79 | the client never cuts a payload below the message limit |
| Ipc.Request | src/cli/client.c:87-103 | by kind of request, what the client holds: the C string of the snapshot, that of the history, nothing where it is missing or too long, or the fixed text |
| Ipc.EndToEnd | src/daemon/ipc_server.c:57-70 | from a zeroed daemon, any interleaving and the builder calls for a value to the client: a document that fits a reply parses back to the value and yields along any chain of sections the integer the structure has there; a longer one of 64-bit numbers arrives cut if and only if it overflows the snapshot buffer at a numeral that starts below the reply limit, and as nothing otherwise |
| FdMon.BaselineDistinct | src/services/fdmon.c:119-136 | over any run of scans the baseline rows are distinct and fit the table |
| FdMon.BaselineGrows | src/services/fdmon.c:119-136 | a baseline row once made never moves or changes |
| FdMon.ChangeIsSinceRow | src/services/fdmon.c:204-207 | the baseline shown is the count in the round that made the row, and the change the count minus that one |
| FdMon.NoRowNoChange | src/services/fdmon.c:119-136 | a scanned pid without a row has met a full table of 200 and shows its own count as baseline and no change, in that round and any later one |
| FdMon.DeltaIsSinceLastRound | src/services/fdmon.c:200-202 | the delta is the difference to the round before, 0 for a pid absent from it |
| FdMon.DeltasTelescope | src/services/fdmon.c:200-207 | for a pid present since its row was made, the per-round deltas add up to the reported change |
| FdMon.Service.FindOrCreateInitial | src/services/fdmon.c:119-136 | a new pid gets a row while there is room, others keep theirs |
| FdMon.Service.Record | src/services/fdmon.c:182-214 | the entry of one process and the running summary |
| FdMon.Service.Scan | src/services/fdmon.c:169-217 | the records, rows, entries and summary of a whole scan |
| FdMon.AcceptedIs | src/services/fdmon.c:169-180 | a round records exactly the processes whose descriptors could be counted, a count of 0 included, in order, the first 100 of them |
| FdMon.Service.Collect | src/services/fdmon.c:152-238 | consumers and leakers are the best 25 of the entries by count and by change, in that order and with nothing larger left out; the number of leakers is the smaller of 25 and the potential leaks counted, which are the entries above their baseline |
| FdMon.ListsShowEntries | src/services/fdmon.c:219-234 | what the two lists say of single entries, in their own figures |
| FdMon.LeaksAreCounted | src/services/fdmon.c:209-214 | the potential leaks are the number of entries with a positive change |
| FdMon.TotalAdds | src/services/fdmon.c:209-214 | the total is the sum of the entries' counts |
| FdMon.Service.Rounds | src/services/fdmon.c:152-238 | after any run every entry of the last list is what the whole run says of its pid |
| StatLine.ParsingUndoesPrinting | src/services/cpuload.c:135-176 | for any command, with spaces and parentheses, at least 13 further fields and a line the 1024-byte buffer takes up to field 15, reading and parsing the printed line gives the command cut to the caller's buffer and fields 14 and 15 |
| StatLine.ParsePidStat | src/services/cpuload.c:135-176 | the cursor loops find command and fields as specified, none where a parenthesis is missing |
| StatLine.SkipFieldsOver | src/services/cpuload.c:163-169 | skipping n fields leaves exactly the rest of the list |

## Left out

- Sockets, poll, accept, threads' start and stop, signals, daemonising and configuration: calls into the system.
- `json_double`, percentages and rates: floating-point text, also where the client reads or prints it; no modelled builder call writes a fraction, though the reader accepts one.
- Surrogate pairs in `\u` escapes: the reader refuses a surrogate code; the builder writes none.
- cpuload's per-process percentages: they use the same table and lookups as procmem, with floating-point results.
- The command text of a table node when `/proc/<pid>/comm` cannot be read: the node then keeps the text of its previous owner; a scan record here carries the text the node ends up with.
- Event time stamps: one clock value per round of procevent.
- The rest of heapmon: its baseline table repeats fdmon's, and its smaps reader is not modelled.
- `svc_manager_collect_all`: a counting loop over the callbacks.
- Wrap-around of sizes, counters and kilobyte differences: they are unbounded integers here, numerals apart.
- Short sends and receives: a reply arrives whole.
- HTTP and web pages: the HTTP thread appears only as another reader of the snapshot buffer.
- ProcMem.Service.Collect: the three re-sorts of one array are three selections from the same list, which a permutation does not change.
- StatLine.ParsePidStat: demands that the last closing parenthesis comes behind the first opening one with a byte after it, because the C code would read outside the line otherwise.
- SharedSnapshot.RunSafe: a reader copies its bytes in ascending order; the collector stores the bytes of one write in any order.
- RingBuffer.Ring.Create: the capacity is positive; a zero or negative one comes unchecked from the configuration.
- JsonWriter.CallsWriteText: values with a fraction or an exponent are excluded, because no modelled builder call writes one.
