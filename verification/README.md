# watch_it, modelled and proved

watch_it watches directories through inotify and runs one command when a file is opened
and another when it is closed. Five parts of it hold its logic, and each is modelled here
in the form the C code has:

- **The event engine** (`src/event_handling.c`). A producer turns inotify records into open
  and close events; a consumer thread walks the tracked files, fires commands and unlinks
  finished files. `EventModel` gives each critical section as a function on values,
  `EventHandling` is the engine as it runs (objects on an intrusive ring, pointer loops,
  fields updated in place), and every method of it is proved to compute the function.
  `EventRuns` lets producer and consumer take their steps in any order and proves one joint
  invariant of files, clock and trace; `EventTheorems`, `EventTiming`, `EventPasses` and
  `EventClosing` draw the consequences, and `EventNumbers` states them in plain numbers. `StrReplace` is the two-pass `str_replace`.
- **The list** (`include/list.h`). `ListRing` has the heap nodes and a ring predicate; each
  operation's `modifies` clause names exactly the links it may touch.
- **The dictionary** (`src/iniparser/dictionary.c`). `Dictionary` is the object with its three
  arrays, `DictionaryModel` the slots it stands for and the finite map they refine.
- **The INI parser and printer** (`src/iniparser/iniparser.c`). `IniLine` models the
  `sscanf` patterns after section 7.19.6.2 of ISO/IEC 9899:1999 and shows what the cascade of
  them amounts to; `IniLoad`, `IniMeaning` say what a file means; `IniDump`, `IniFormat`,
  `IniReload`, `IniRoundTrip` prove that printing and parsing undo each other, and
  `IniNoSection` that they do not where no section is stored;
  `Iniparser` has the operations with their buffers and loops.
- **Directories and records** (`src/config.c`, `src/watch_it.c`). `WatchDirs` and `Config`
  hold the count walk and the fill walk over a fixed directory tree, `WatchIt` the walk over
  a buffer of variable-length inotify records, and `WatchRuns` ties what it hands on to the
  producer's steps in a run of the engine.

`CStrings` and `Sequences` are shared vocabulary.

Parameters stand for the outside world: `clock` is what the n-th `clock_gettime` delivers (a
time or a failure), `fs` what each path names, the record sequence what `read` put into the
buffer, a text what `fgets` reads. A call of `system` appends to the trace `fired`.

## Results that contradict the documentation or a first reading

- Commands of a file alternate open, close, open, ... in every run **if and only if** there is
  a close command, or the open command can never fire (it is empty, or the delay is
  negative). With an empty close command the consumer still unlinks the closed file
  (`src/event_handling.c:615-616`), so a second open fires (`EventTheorems.AlternationExactly`).
- A pass leaves no closed file **if and only if** each closed file had its open fired before,
  or there is an open command and the clock answers when the pass reaches the file
  (`EventPasses.PassClearsClosed`). With no open command, closed files stay.
- A close event of a tracked open file is not always answered. A close command follows at
  the consumer's next turn **if and only if** there is one, the open has fired or is due, and
  the file is shut by then: the close found it past the delay and the producer has not
  opened it again since, or a later close event did (`EventClosing.CloseAnsweredExactly`). A
  file that is opened again before the consumer gets the mutex loses its close event
  (`EventClosing.ReopeningSwallowsClose`); `EventClosing.CloseCanBeSwallowed` is such a run.
- The repository's `README.md:37` and `watch_it.conf:16-24` give the delay in milliseconds.
  A tick is seconds times 1000000 plus milliseconds, so one millisecond across the end of a
  second passes for any delay below 999001 (`EventTiming.OneMillisecondPasses`).
  `EventTiming.DelayIsMilliseconds` says exactly when the comparison is right.
- `src/iniparser/dictionary.c:225-230` calls a NULL value equivalent to a deleted key. The code
  keeps the key: it is found, counted and dumped. `DictionaryModel.SetRefines` stores `None`
  like any value and `DictionaryModel.GetRefines` finds it.
- `errs` is overwritten by the next good line, so a file is refused **if and only if** it has a
  syntax error that no later section or value line follows (`IniMeaning.RefusedExactly`).
- `src/iniparser/iniparser.c:561-563` promises -1 from `iniparser_set` for an entry that is
  missing. The code adds it (`Iniparser.SetEntry`).
- A dictionary of good sections and keys reloads from its dump with every value as the parser
  rereads it. The reloaded map is the original, and the second dump the first, **if and only
  if** every value is trimmed, holds neither `;` nor `#` and does not look quoted
  (`IniRoundTrip.RoundTripExactly`, `IniRoundTrip.DumpLoadDump`).
- `src/iniparser/iniparser.c:218` calls the dump a saved dictionary. One with keys but no section
  loads with a colon in front of every key, so it never comes back
  (`IniNoSection.ColonsAreAdded`, `IniNoSection.NeverReturns`).

## Model

| member | source | states |
|---|---|---|
| CStrings.StrStrIs | src/event_handling.c:225 | `strstr` finds an offset exactly when the pattern occurs there and nowhere before |
| CStrings.StrStrNone | src/event_handling.c:219-220 | `strstr` finds nothing exactly when the pattern occurs nowhere |
| CStrings.StripCuts | src/iniparser/iniparser.c:88-99 | exactly the blanks at both ends go, the blanks being the characters with codes 9 to 13 and 32 |
| CStrings.LowerCodes | src/iniparser/iniparser.c:57-61 | codes 65 to 90 move by 32, every other stays |
| StrReplace.PiecesSplit | src/event_handling.c:225-246 | the pieces joined by the searched string are the text again, and each piece ends at the leftmost occurrence in what remains |
| StrReplace.PiecesUnique | src/event_handling.c:225-246 | no other splitting has these two properties |
| StrReplace.ReplacedLength | src/event_handling.c:225-234 | the size the counting pass predicts is the length of the pieces joined by the replacement |
| StrReplace.CountFits | src/event_handling.c:234 | that size is never negative, however much shorter the replacement is |
| StrReplace.CountOccurrences | src/event_handling.c:225-227 | the counting loop finds one occurrence fewer than there are pieces |
| StrReplace.Fill | src/event_handling.c:239-246 | the filling loop writes the joined pieces and the terminator and fills the buffer to its last cell |
| StrReplace.StrReplace | src/event_handling.c:206-248 | NULL exactly when an argument is missing or nothing occurs; else a buffer of the predicted size with every leftmost occurrence replaced |
| ListRing.RingIsUnique | include/list.h:20-31 | the heap determines the sequence of a ring from its head |
| ListRing.ListHead.Init | include/list.h:29-31 | an initialised head is a ring of its own |
| ListRing.AddBetween | include/list.h:39-47 | linking between neighbours inserts at that place of the ring, touching four links |
| ListRing.Add | include/list.h:57-60 | the new node follows the head |
| ListRing.AddTail | include/list.h:70-73 | the new node is appended |
| ListRing.DelBetween | include/list.h:82-86 | the ring without the node whose neighbours are joined |
| ListRing.Del | include/list.h:93-98 | removes exactly that node and clears its links |
| ListRing.DelInit | include/list.h:104-108 | removes the node and leaves it a ring of its own |
| ListRing.Move | include/list.h:115-119 | takes the node from its ring and puts it behind the head of the same or another ring |
| ListRing.MoveTail | include/list.h:126-131 | the same, at the tail |
| ListRing.IsEmpty | include/list.h:137-140 | true exactly for a ring of the head alone |
| ListRing.SpliceNonEmpty | include/list.h:142-154 | the whole second list, in order, between the head and its first entry |
| ListRing.Splice | include/list.h:161-165 | the same, and an empty list changes nothing |
| ListRing.SpliceInit | include/list.h:174-181 | the same, and the spliced head is an empty ring afterwards |
| EventModel.GetTick | src/event_handling.c:180-204 | a tick is never below the last one and becomes the last one; a failed reading yields 0 and keeps it |
| EventModel.TickIsNotSentinel | src/event_handling.c:100-103 | no tick is UINT32_MAX, the mark of a file that is not closed |
| EventModel.FindFile | src/event_handling.c:347-355 | the first file with that id and name, and none before it |
| EventRuns.VisitFile | src/event_handling.c:593-619 | what one visit may change of a file, and when it marks it for removal |
| EventRuns.SweepKeeps | src/event_handling.c:623-631 | the second loop keeps exactly the unmarked files |
| EventRuns.HandleCloseKeepsInv | src/event_handling.c:526-538 | the close branch keeps the joint invariant |
| EventRuns.AddKeepsInv | src/event_handling.c:513-571 | adding any event keeps the joint invariant of files, ticks and trace |
| EventRuns.PassKeepsInv | src/event_handling.c:585-640 | a consumer pass keeps it |
| EventRuns.RunKeepsInv | src/event_handling.c:513-642 | every interleaving of producer and consumer steps keeps it |
| EventRuns.SweepInOrder | src/event_handling.c:623-631 | and keeps them in their order |
| EventTheorems.CommandsAlternate | src/event_handling.c:358-434 | per file, commands alternate from open on; one is outstanding exactly while the file is tracked with its open fired |
| EventTheorems.TwoOpensInARow | src/event_handling.c:398-402 | without a close command, a run in which two opens fire in a row |
| EventTheorems.AlternationExactly | src/event_handling.c:358-434 | the configurations under which every run alternates, exactly |
| EventTiming.TicksNeverDecrease | src/event_handling.c:193-203 | later ticks are never smaller, even when the clock steps back |
| EventTiming.ReachableFiles | src/event_handling.c:513-631 | in every reachable state: entries distinct, none half removed, the closed flag agrees with the sentinel, and a closed file was closed later than opened by more than the delay, or has close time 0 and some earlier reading of the clock failed |
| EventTiming.ClosedPastDelay | src/event_handling.c:526-531 | while no reading has failed, every closed file has its close later than its open by more than the delay |
| EventTiming.NoEarlyOpen | src/event_handling.c:596-600 | every open command, when it fires, is later by more than the delay than the latest open event of that file that took effect, and has the configured text |
| EventTiming.DelayIsMilliseconds | src/event_handling.c:193-194 | for every delay, when the comparison of ticks is the documented comparison of milliseconds, exactly; across a second it compares at least 999001 ticks |
| EventTiming.OneMillisecondPasses | watch_it.conf:22-23 | two readings one millisecond apart that count as past the delay |
| EventTiming.NoLostWakeUp | src/event_handling.c:565-592 | with the mutex free, the flag is down exactly when no event was added since the last pass, and a waiting consumer with one has been signalled |
| EventTiming.AddedEventIsSeen | src/event_handling.c:565-592 | once an event was added, the consumer's next step is a pass, not a wait |
| EventNumbers.ReadingIsLargest | src/event_handling.c:180-204 | a successful reading returns the largest of `sec * 1000000 + nsec / 1000000` so far, a failed one 0 |
| EventNumbers.LastTickIsLargest | src/event_handling.c:193-203 | after every run the last tick is the largest of the readings made, or 0 |
| EventNumbers.TimestampIsLargest | src/watch_it.c:265 | the timestamp of every event is the largest tick read so far, or 0 if its reading failed |
| EventNumbers.OpensFireLate | src/event_handling.c:95-98 | in every run, each open command comes later than its open event by more than the configured delay; with a negative delay there is none |
| EventNumbers.ClosesComeLate | src/event_handling.c:526-531 | the same for closed files while no reading has failed; with a negative delay no file is ever closed |
| EventNumbers.OpenFiresExactly | src/event_handling.c:593-619 | after any run, a pass fires the open of an unfired file exactly when the tick read for it is more than the delay, as a number, after its open |
| EventNumbers.CloseByNumbers | src/event_handling.c:67-74 | an event with one of the bits 8, 16, 512, 1024 set closes, forgets or leaves its file by the tick read for it and the delay as a number |
| EventNumbers.CloseTimeIsLargest | src/event_handling.c:528-531 | a file is closed at the largest tick after two readings, or at 0 if the second failed |
| EventNumbers.OtherByNumbers | src/event_handling.c:105-109 | an event with none of those bits opens its file exactly when bit 1 or 32 is set, and else changes nothing |
| EventNumbers.WaitIsLeast | src/event_handling.c:602-608 | while the clock stands still, a pass leaves the least of the wait before it and the times the waiting files have been open, and 6000 for an empty list |
| EventNumbers.WaitStarts | src/event_handling.c:580-591 | the wait is 6000 at first and the delay after a wait |
| EventNumbers.CommandsNameTheFile | src/event_handling.c:377-393 | every command of every run is the configured one of its kind: unchanged if `@0` occurs nowhere in it, else with the file's name in place of every `@0` |
| EventPasses.PassClearsClosed | src/event_handling.c:593-631 | after any run, a pass leaves no closed file exactly under the stated condition |
| EventPasses.NoClosedAfterPass | src/event_handling.c:593-631 | with an open command and a clock that answers, none is left |
| EventPasses.SilentUntilReopened | src/event_handling.c:541-561 | an untracked file fires nothing until its next open event |
| EventPasses.EarlyCloseSilences | watch_it.conf:22-23 | opened and closed within the delay before the open fired: no command in any continuation without a new open event |
| EventPasses.PassExactly | src/event_handling.c:593-631 | for every tracked file, which commands a pass fires, whether it forgets the file, and what it keeps of it |
| EventPasses.AddKeepsOthers | src/event_handling.c:347-355 | an event changes no file but its own |
| EventPasses.CloseEventExactly | src/event_handling.c:524-540 | a close event closes an open file past the delay with a second tick read, else forgets it if unfired and leaves it if fired; a closed or untracked file stays as it is |
| EventPasses.OpenEventExactly | src/event_handling.c:541-562 | an open event starts tracking an untracked file, reopens a closed one with its fired flag kept, and changes no open one |
| EventPasses.OtherEventExactly | src/event_handling.c:563-570 | every event raises the flag and fires nothing; one that neither opens nor closes changes no file |
| EventClosing.ProducerWindow | src/event_handling.c:524-562 | after any steps of the producer alone a file is closed exactly when one of them closed it past the delay, or it was closed, and none opened it since |
| EventClosing.TurnExactly | src/event_handling.c:585-631 | what the consumer's next turn fires for a file and what it leaves of it |
| EventClosing.CloseAnsweredExactly | src/event_handling.c:524-631 | over runs, with any producer steps before the consumer's turn and for fired and unfired files: the commands that follow a close event, exactly |
| EventClosing.ReopeningSwallowsClose | src/event_handling.c:543-546 | a close followed by an open event before the consumer's turn fires nothing and leaves the file open |
| EventClosing.CloseCanBeSwallowed | src/event_handling.c:543-546 | under every configuration that can fire, a run in which that happens far past the delay |
| EventHandling.FileEntry.constructor | src/event_handling.c:250-313 | a new entry is open, unfired and unmarked |
| EventHandling.FileEntry.Close | src/event_handling.c:154-165 | the closed entry |
| EventHandling.FileEntry.ResetToOpen | src/event_handling.c:167-178 | the reopened entry; the fired-open flag survives |
| EventHandling.EventHandler.constructor | src/event_handling.c:643-655 | an empty ring, no signal, last tick 0 |
| EventHandling.EventHandler.GetTick | src/event_handling.c:180-204 | refines the tick function on the static last tick |
| EventHandling.EventHandler.CalcOpenDelta | src/event_handling.c:76-93 | ticks since the open, 0 when the clock is behind |
| EventHandling.EventHandler.HasOpenPastDelay | src/event_handling.c:95-98 | the comparison is unsigned, so a negative delay never passes |
| EventHandling.EventHandler.Expand | src/event_handling.c:377-393 | the command with every `@0` replaced, or as it is |
| EventHandling.EventHandler.ExecuteOpenEvent | src/event_handling.c:358-396 | fires and sets the flag, unless the command is empty or a flag is set |
| EventHandling.EventHandler.ExecuteCloseEvent | src/event_handling.c:398-434 | the same for the close command, which needs a fired open |
| EventHandling.EventHandler.FindInFileList | src/event_handling.c:335-356 | the list head of the first match, walking the ring |
| EventHandling.EventHandler.AddNewFile | src/event_handling.c:494-511 | a fresh entry at the tail of the ring |
| EventHandling.EventHandler.RemoveFromList | src/event_handling.c:329-333 | the entry unlinked, the others in order |
| EventHandling.EventHandler.HandleClose | src/event_handling.c:526-538 | refines the close branch on the ring |
| EventHandling.EventHandler.AddEvent | src/event_handling.c:513-571 | refines the producer's critical section on the ring |
| EventHandling.EventHandler.VisitEntry | src/event_handling.c:596-618 | refines one turn of the first loop |
| EventHandling.EventHandler.VisitAll | src/event_handling.c:593-619 | refines the first loop over the ring, in list order |
| EventHandling.EventHandler.SweepRemoved | src/event_handling.c:623-631 | the loop that unlinks as it goes visits each original node once, in order, and leaves exactly the unmarked files |
| EventHandling.EventHandler.ConsumerPass | src/event_handling.c:592-637 | refines one turn of the consumer, wait time included |
| DictionaryModel.HoleExists | src/iniparser/dictionary.c:284-287 | fewer entries than slots leave a free slot, and only then |
| DictionaryModel.Probe | src/iniparser/dictionary.c:287-291 | the wrap-around probe ends on a free slot for every pattern of holes |
| DictionaryModel.GetRefines | src/iniparser/dictionary.c:186-207 | a lookup in the slots is a lookup in the map |
| DictionaryModel.SetRefines | src/iniparser/dictionary.c:235-298 | setting updates the map at one key, through holes and growth, and keeps keys distinct |
| DictionaryModel.UnsetRefines | src/iniparser/dictionary.c:311-351 | unsetting removes one key |
| DictionaryModel.HistoryRefines | src/iniparser/dictionary.c:124-351 | every sequence of operations answers as the finite map does, and `n` is its size |
| DictionaryModel.ProbeIsFirst | src/iniparser/dictionary.c:287-291 | that slot is the first free one, cyclically |
| DictionaryModel.NewKeyPlace | src/iniparser/dictionary.c:266-297 | a new key goes into the first free slot from the number of entries on, after doubling if there is none, and no other slot changes |
| Dictionary.XorDigits | src/iniparser/dictionary.c:105 | the exclusive or, binary digit by binary digit |
| Dictionary.HashValue | src/iniparser/dictionary.c:94-111 | a value worked out by hand, which fixes the five shifts |
| Dictionary.SignIsExtended | src/iniparser/dictionary.c:103 | bytes from 128 on are added as negative numbers |
| Dictionary.Hash | src/iniparser/dictionary.c:94-111 | the loop computes the mixing function modulo 2^32 |
| Dictionary.MemDouble | src/iniparser/dictionary.c:42-54 | twice the cells, the old ones first, the rest zero |
| Dictionary.Dictionary.constructor | src/iniparser/dictionary.c:124-141 | an empty dictionary of at least 128 slots |
| Dictionary.Dictionary.Find | src/iniparser/dictionary.c:192-205 | comparing hashes first finds the slot that comparing strings finds |
| Dictionary.Dictionary.Get | src/iniparser/dictionary.c:186-207 | refines lookup |
| Dictionary.Dictionary.Grow | src/iniparser/dictionary.c:272-281 | as many holes again behind the old slots |
| Dictionary.Dictionary.FreeSlot | src/iniparser/dictionary.c:284-291 | the probe terminates, at the first hole from `n` on, once around |
| Dictionary.Dictionary.Set | src/iniparser/dictionary.c:235-298 | refines setting; fails exactly for a NULL key |
| Dictionary.Dictionary.Unset | src/iniparser/dictionary.c:311-351 | refines unsetting |
| Dictionary.NoneFound | src/iniparser/dictionary.c:246-265 | skipping the search when `n` is 0 misses nothing |
| IniLine.ParseValueIsSplit | src/iniparser/iniparser.c:625-661 | for every line, the five patterns in turn amount to one split at the first `=` |
| IniFormat.ParsedKeyIsGood | src/iniparser/iniparser.c:630-632 | every key a line yields is non-empty, trimmed, lower-case, free of `=` and no comment; every value is trimmed |
| IniFormat.SpacedLineParses | src/iniparser/iniparser.c:617-641 | `key = text`, with any blanks before the sign, means that key in lower case and the value in the text up to its last non-blank |
| IniFormat.RereadShrinks | src/iniparser/iniparser.c:627-640 | rereading never lengthens a value, and a value whose length it keeps comes back unchanged |
| IniFormat.QuotedValueKept | src/iniparser/iniparser.c:625 | between double or single quotes comment characters are kept, and what follows the closing quote is ignored |
| IniFormat.CommentCut | src/iniparser/iniparser.c:627-632 | a `;` or `#` comment behind a plain value is cut off with the blanks before it |
| IniFormat.EmptyValues | src/iniparser/iniparser.c:633-654 | a key with nothing behind the sign, or two quotes, has the empty value |
| IniFormat.OnlyComment | src/iniparser/iniparser.c:643-655 | so has a key with only a comment behind the sign |
| IniFormat.LineKinds | src/iniparser/iniparser.c:607-661 | which lines are empty, comments, headers and errors, exactly |
| IniFormat.HeaderName | src/iniparser/iniparser.c:617-624 | for every bracketed text, the section it names |
| IniFormat.PrintedColumns | src/iniparser/iniparser.c:289-290 | a printed key: the key, blanks up to column 30, ` = `, the value |
| IniFormat.PrintedParses | src/iniparser/iniparser.c:289-290 | a line printed for a good key parses to that key and the reread value, or to a header |
| IniFormat.RereadReturns | src/iniparser/iniparser.c:627-640 | a printed value is reread as itself exactly when it is good |
| IniFormat.PrintedLineReturns | src/iniparser/iniparser.c:289-290 | a printed key line reads back exactly when key and value are good and the line looks like no header |
| IniFormat.PrintedSectionReturns | src/iniparser/iniparser.c:617-624 | a printed header reads back exactly when its name is trimmed, lower-case and free of `]`; `[]` keeps the section before |
| IniLoad.LoadIsFold | src/iniparser/iniparser.c:715-779 | loading lines that fit is a fold over the backslash-joined lines |
| IniLoad.BackslashJoins | src/iniparser/iniparser.c:730-742 | a backslash before the blanks at the end of a line joins the next line to it |
| IniLoad.OtherLinesStand | src/iniparser/iniparser.c:718-746 | any other line stands for itself without the blanks at its end, an empty one for nothing |
| IniLoad.LongLineRefused | src/iniparser/iniparser.c:721-729 | a first line of 1023 characters or more refuses the file |
| IniLoad.FittingLineRead | src/iniparser/iniparser.c:715-779 | one of up to 1022 characters is stored as its parse says |
| IniLoad.NewlineOptional | src/iniparser/iniparser.c:722 | the last line of a file needs no newline |
| IniLoad.LoneCharacterSkipped | src/iniparser/iniparser.c:718-720 | unless it is a single character, which is skipped |
| IniLoad.BlankLineUndefined | src/iniparser/iniparser.c:731-737 | a line of blanks only has no defined meaning |
| IniMeaning.LastAssignmentWins | src/iniparser/iniparser.c:757-760 | of several assignments to a key the last one holds |
| IniMeaning.LoadMeans | src/iniparser/iniparser.c:715-779 | a file that loads means its assignments in order; comments and blank lines assign nothing, reopened sections go on |
| IniMeaning.RefusedExactly | src/iniparser/iniparser.c:753-784 | a file is refused exactly when an error is followed by no section or value line |
| IniMeaning.LoadedKeysAreCanonical | src/iniparser/iniparser.c:620-636 | every stored key is lower-case and trimmed around section and key |
| IniMeaning.LoweredIs | src/iniparser/iniparser.c:48-64 | a name looked up is its first 1024 characters in lower case |
| IniMeaning.FoundInAnyCase | src/iniparser/iniparser.c:402-413 | every stored key is found under any letter case |
| IniMeaning.SetAndUnsetKeepLowerCase | src/iniparser/iniparser.c:566-584 | setting and unsetting keep all keys lower-case and act on the entry named in any letter case |
| IniDump.PrefixDecides | src/iniparser/iniparser.c:287 | a key belongs to a section exactly when the text before its first colon is the section |
| IniDump.SectionsAre | src/iniparser/iniparser.c:129-137 | exactly the stored keys without a colon are sections |
| IniDump.SectionsAreDistinct | src/iniparser/iniparser.c:155-179 | the enumeration names each section once |
| IniDump.SectionsInOrder | src/iniparser/iniparser.c:155-179 | the sections are the keys without a colon, in slot order |
| IniDump.KeysInOrder | src/iniparser/iniparser.c:372-381 | the keys of a section are the whole keys that begin with its name and a colon, in slot order |
| IniDump.EntriesPartition | src/iniparser/iniparser.c:305-331 | `n` is the number of sections plus the keys of each, when every key has its section stored |
| IniReload.SetAppends | src/iniparser/dictionary.c:266-298 | a new key goes right behind the entries, however often the arrays double |
| IniReload.DumpIsLines | src/iniparser/iniparser.c:281-293 | the dump is a sequence of newline-terminated lines |
| IniReload.BlocksApply | src/iniparser/iniparser.c:747-771 | loading those lines stores each section and its keys in order |
| IniRoundTrip.DumpReloads | src/iniparser/iniparser.c:227-295 | a dump of good sections and keys always loads, with the same keys and the reread values |
| IniRoundTrip.RoundTripExactly | src/iniparser/iniparser.c:216-225 | the reloaded map is the original, NULL values of keys as empty text, exactly when every value is good |
| IniRoundTrip.DumpLoadDump | src/iniparser/iniparser.c:216-225 | the second dump equals the first exactly when every value is good |
| IniNoSection.ColonsAreAdded | src/iniparser/iniparser.c:237-246 | a dictionary without sections loads from its dump with exactly its keys, each behind a colon |
| IniNoSection.NeverReturns | src/iniparser/iniparser.c:237-246 | so a dictionary with keys but no section never comes back |
| IniRoundTrip.BackslashSwallowsNext | src/iniparser/iniparser.c:737-742 | after a value that ends in a backslash, two lines leave at most one assignment |
| Iniparser.StrLwc | src/iniparser/iniparser.c:48-64 | at most 1024 characters, lower-cased |
| Iniparser.StrStrip | src/iniparser/iniparser.c:80-101 | the string without the blanks at its ends |
| Iniparser.ReadLine | src/iniparser/iniparser.c:596-663 | refines the parse of one line |
| Iniparser.ReadValue | src/iniparser/iniparser.c:625-661 | the patterns tried in order |
| Iniparser.StoreLine | src/iniparser/iniparser.c:747-771 | refines the switch over the parsed line, section and error count included |
| Iniparser.LoadText | src/iniparser/iniparser.c:679-787 | refines the load loop with its buffer; NULL exactly when the file is refused |
| Iniparser.GetString | src/iniparser/iniparser.c:402-413 | lookup under the lower-cased key |
| Iniparser.FindEntry | src/iniparser/iniparser.c:543-551 | whether an entry is stored; no for a NULL dictionary or entry |
| Iniparser.SetEntry | src/iniparser/iniparser.c:566-569 | sets the lower-cased entry, or adds it; fails exactly for a NULL dictionary or entry |
| Iniparser.UnsetEntry | src/iniparser/iniparser.c:581-584 | unsets it; a NULL entry is ignored |
| Iniparser.GetNSec | src/iniparser/iniparser.c:121-139 | the number of sections, -1 for NULL |
| Iniparser.GetSecName | src/iniparser/iniparser.c:155-179 | the n-th section in slot order, NULL outside the range |
| Iniparser.GetSecNKeys | src/iniparser/iniparser.c:305-331 | the number of keys of a stored section, else 0, NULL arguments included |
| Iniparser.GetSecKeys | src/iniparser/iniparser.c:347-385 | exactly as many cells as were counted, filled with the keys of the section; NULL exactly when none is stored under that name or an argument is NULL |
| Iniparser.DumpSectionIni | src/iniparser/iniparser.c:269-295 | appends the text of one section; NULL arguments write nothing |
| Iniparser.DumpIni | src/iniparser/iniparser.c:227-255 | appends the whole dump; NULL arguments write nothing |
| WatchDirs.WalksAgree | src/config.c:50-148 | the counting walk and the filling walk meet the same errors; without one they agree on number and order |
| WatchDirs.PreorderIs | src/config.c:121-145 | the paths listed are exactly those of the directories that a chain of names, none of them `.` or `..`, leads to |
| WatchDirs.LoadSucceedsExactly | src/config.c:108-148 | the walk gets through exactly when every directory below can be opened and every entry looked at |
| WatchDirs.PathsAreDistinct | src/config.c:121-145 | no directory of a tree is listed twice |
| WatchDirs.PreorderPutsParentsFirst | src/config.c:134-144 | every directory is listed after its parent |
| WatchDirs.TokensOfList | src/config.c:157 | names listed with commas are the tokens |
| WatchDirs.StrTokExactly | src/config.c:157-170 | a token is what stands between commas and blanks |
| WatchDirs.RecursiveIs | src/config.c:15-35 | `recursive` says yes for the word true in any letter case, and for a NULL value |
| WatchDirs.CountSizesLoad | src/config.c:150-208 | when the count succeeds, the load writes exactly that many paths: each root, then its subdirectories in preorder |
| WatchDirs.CountSucceedsExactly | src/config.c:194-207 | the count succeeds exactly when every root can be read all the way down |
| Config.CountAllDirs | src/config.c:50-92 | refines the counting walk |
| Config.Conf.Write | src/config.c:94-106 | appends one path |
| Config.Conf.LoadRec | src/config.c:108-148 | refines the filling walk, on success and on failure |
| Config.Conf.LoadWatchDir | src/config.c:150-174 | refines the load of all roots |
| Config.GetWatchDirCount | src/config.c:183-208 | refines the count over all roots |
| Config.LoadDirectories | src/config.c:253-270 | the array has exactly the room the load needs and ends up full; no configuration exactly when a walk fails |
| WatchIt.HeaderReturns | src/watch_it.c:230-231 | the fields read through the cast are those of the record, and the next record starts where this one ends |
| WatchIt.LayoutIs | src/watch_it.c:230 | the bytes of a record spelled out |
| WatchIt.FindWatch | src/watch_it.c:209-219 | a watch with the descriptor, or none exists |
| WatchIt.NameMap.constructor | src/watch_it.c:104-118 | an empty table |
| WatchIt.NameMap.Add | src/watch_it.c:191-207 | appends, unless 1024 watches are stored |
| WatchIt.NameMap.Find | src/watch_it.c:209-219 | refines the search |
| WatchIt.Filter | src/watch_it.c:234-260 | the chain of tests lets through exactly the wanted records, under the right name |
| WatchIt.WantedNameIs | src/watch_it.c:234-260 | the first watch with the descriptor hands a record on exactly for a named non-directory with kind bit 1, under the bytes before the first NUL, or for a nameless record with kind bit 2, under the watch's name |
| WatchIt.WantedMatches | src/watch_it.c:227-272 | the wanted events are those of exactly these records, in order, with their descriptor, mask and tick |
| WatchIt.OfferedAll | src/watch_it.c:268-271 | accepted events do not stop the loop, whatever each call answers |
| WatchIt.GetEvent | src/watch_it.c:221-273 | stops at every record start once, ends at the length read, and hands on in order exactly the wanted events up to the first rejected call; when none is rejected, those of exactly the records described above |
| WatchRuns.BufferIsHanded | src/watch_it.c:262-271 | in every run, whatever the consumer does in between, the events the engine receives are the wanted ones in order, each with the tick read for it |

## Left out

- Interleaving inside a critical section: the producer's tick read (`src/watch_it.c:265`) is a step of its own between critical sections; one that falls into the consumer's pass is placed before or after it, and a read is atomic although the source takes it without the mutex.
- Waiting: the deadline, the error codes and the condition variable of `wait_for_producer` are not modelled; a wait ends at any moment, for any reason.
- Real time: delays are in ticks, and no statement says how long a wait or a command takes.
- EventHandling.FileEntry.constructor: a `FILE_LIST` and its `FILE_EVENT` are one object, because they are allocated, linked and freed together.
- EventModel.GetTick: the clock delivers seconds that are not negative and whose tick fits the 64 bits of `long`; a clock set before 1970 is not modelled.
- EventHandling.EventHandler.AddEvent: allocation succeeds, so the result is 0 and the warning paths that only log are absent.
- Memory: allocation failure, `free`, buffer sizes of names and commands (`src/event_handling.c:284`, `:648`), and NUL bytes inside texts are not modelled; strings are Dafny strings.
- StrReplace.StrReplace: lengths are unbounded, the source computes them in `int`.
- Commands: `system` succeeds or fails without effect on the engine, as in the source, and its outcome is not recorded.
- Dictionary.Hash: characters are taken as signed bytes; which function of the key the hash is plays no part in the results about the dictionary.
- Dictionary.Dictionary.Grow: sizes are unbounded, the source keeps them in `int`.
- Iniparser.StrLwc: the static buffers of `strlwc` and `strstrip` are returned as values, so their reuse by the next call is not modelled; ASCII is the only locale.
- Iniparser.LoadText: the two steps the C standard leaves undefined (a line of blanks only, which makes the trimming loop leave the buffer, and a section and key that overflow `tmp`) are the outcome `Undefined`, which the method excludes and `IniLoad.Load` names.
- IniLoad.LoadIsFold: stated for newline-terminated lines that fit the buffer and are bare or contain a non-blank character; `IniLoad.Load` itself covers every text.
- Iniparser.GetSecNKeys: the name of a stored section is shorter than 1024 characters, so that `keym` holds it; the source checks nothing. The same holds for `Iniparser.GetSecKeys`, `Iniparser.DumpSectionIni` and `Iniparser.DumpIni`.
- Iniparser.UnsetEntry: needs a dictionary, as the source does.
- Iniparser.GetSecKeys: the cells hold the strings, not pointers into the dictionary.
- IniDump.PlainText: `%s` of a NULL pointer prints `(null)`, as the GNU C library does.
- IniRoundTrip.RoundTripExactly: the conditions on sections, keys and line shape (one line, no trailing backslash, no look of a header, length) are sufficient; necessity is shown for single lines (`IniFormat.PrintedLineReturns`, `IniFormat.PrintedSectionReturns`) and for the backslash (`IniRoundTrip.BackslashSwallowsNext`).
- IniNoSection.ColonsAreAdded: keys that begin with `[`, and lines that ask for another line or do not fit, are left open.
- Config.LoadDirectories: needs `watch_dir` to have a value, since `strcpy` of NULL is undefined; a count of -1 stands for the allocation that then fails.
- WatchDirs.WalksAgree: the tree does not change between the walks, `closedir` succeeds, and paths fit `FILENAME_MAX`.
- WatchIt.GetEvent: the answer of the n-th `event_handling_add_event` is the parameter `accepts` and the n-th tick the parameter `ticks`, which `WatchRuns.BufferIsHanded` ties to a run; names fit `event_name`; `min_read_close` of the event is dropped, as nothing reads it.
- `iniparser_getint`, `iniparser_getdouble`, `iniparser_getboolean`, `iniparser_dump`, `dictionary_dump`, `load_fire_on`, `load_commands` and `config_free` are not modelled.
- Start-up (`src/watch_it.c:43-189`), syslog and the kernel side of inotify are not modelled.
