# What rshx promises, proved

rshx runs one command on many Hosts over ssh. The ssh connections are I/O, but
what rshx does around them is a set of closed algorithms and small protocols:
this project models those in Dafny and proves what they promise, for every input,
every schedule and every interleaving.

`dafny verify dfyconfig.toml` checks the whole project.

## How it is laid out

| file | what it is about |
|---|---|
| `MarkerFilter.dfy` | stripping the password marker from a stream that arrives in chunks; the two stream readers |
| `PromptClock.dfy`, `Readings.dfy`, `Deadline.dfy` | what a Host's password ask costs, what a limit is decided on, and the wait itself against a schedule nobody controls |
| `Wakeups.dfy` | the two register, check, park loops |
| `Interrupt.dfy`, `Settle.dfy` | the state a stop and the Hosts' tasks share; one connection against every other task |
| `Run.dfy`, `RunTheorems.dfy`, `Reports.dfy` | a whole run as a step system: the window, the start check, registration, judgement, the stop, and what each Host is reported as |
| `Outcomes.dfy`, `Collection.dfy`, `WholeRun.dfy` | statuses and the exit code; the main task's loop; the loop and the Hosts together |
| `Passwords.dfy` | who is given which password, and when the user is asked |
| `HostPatterns.dfy`, `HostFile.dfy`, `Groups.dfy`, `Selection.dfy` | patterns, the host file, groups, the Hosts a run touches |
| `Quoting.dfy`, `Remote.dfy` | shell text, and the words the shells at the far end read in it |
| `ProcessTree.dfy`, `StopMarker.dfy` | what a stop kills, and when it can be relied on |

The marker is any nonempty needle and a byte is any type. Time is a natural
number; whoever reads a clock passes in, or is given, the instant. A thread, a
signal, another Host and the user at the terminal are events of a schedule or
steps of a step system, taken in any order the program allows. A password is any
value: `BlindToPasswords` proves that no decision looks at one, so the theorems
about passwords number them by the ask they were typed at and lose nothing.

## Where the code and its comments differ

The model follows the code. Each of these is a theorem.

- `src/privilege.rs:43-60` gives a stop's sudo an empty prompt. ssh joins its words
  with blanks, so an empty word is lost, and sudo takes the `--` after it for its
  prompt. `StopArrives` says this is the only case in which a stop's words do not
  arrive as meant; `LostPromptIsRead` says what sudo is handed instead.
- `src/privilege.rs:262-268` says a stop has no password for a Host whose sudo has
  not been answered. Any Host on the shared password is given it, whether or not it
  was ever handed it before: `StopUsesWhatTheHostWasGiven` has the exact condition,
  and `AStopMayUseMore` a run of one ask in which it happens.
- `src/remote.rs:260-265` argues that a stop always reads after the wrapper wrote.
  Nothing in the protocol enforces it. `WhenAStopIsReliable` proves that, at the
  moment it reads, a stop can be relied on exactly when the pid has been written
  by then or the command is over by then. `EarlyReadMisses` carries every other
  read on to a run whose command outlives the stop, and `AnEmptyReadMisses` is one
  such run in full.
- `src/privilege.rs:402-406` overwrites the start of an ask that is already out.
  `SecondAskKeepsTheCharge` says when that is harmless; `SpentIsTicksAsked` takes
  as its premise that one Host's asks never overlap, which its single stderr
  reader guarantees.
- `src/privilege.rs:336-339` promises that a slow typist cannot hold another Host
  past its limit. A Host's wait runs inside the window, which the main task alone
  polls (`src/run.rs:147-163`), and the main task awaits the whole of a prompt
  (`src/run.rs:194`), so no limit is decided while the user types. `WaitBounded`
  proves that a Host past its limit and not at its own prompt is still waiting only
  while an ask is being served; `HeldUntilAnswered` that such a wait is held until
  that ask is answered, whatever else happens; `HeldPastAnyLimit` that a Host which
  asked for nothing can so be held past every limit. What the Host is charged is not
  touched by other Hosts' asks (`OtherAsksCostNothing`); only when it is looked at is.
- `src/interrupt.rs:210-213` and `:266-276` each make two readings as if they were
  one: the start of the wait and what was spent at prompts before it, then what has
  been spent since and the time elapsed. Ticks of the Host's own ask that fall in
  one of these two gaps are charged to the Host. `ReadingIsOwnTimeAndGaps` says the
  measurement is the Host's own time and exactly those ticks; `WhenATimeoutIsEarly`
  that a timeout is short of the limit by no more than the gaps of the measurement
  that decided it; `OnTimeWithoutAnAsk` that it is never early unless an own ask is
  out as the wait begins or goes out around a reading. `WhichWaitsCanTimeOutEarly`
  is exact in what a caller passes: some run times out early if and only if prompts
  are left out and the limit is not zero. For each limit `EarlyByTheFirstGap` and
  `EarlyByTheLastGap` are such runs, of a Host that has had no time at all.
- `src/host.rs:343-364` takes the padding width from the bound's text, and reads a
  bound with a leading `+`. `BoundRoundTrips` says padding gives the text back
  exactly when there is no plus sign.

## Model

| member | source | states |
|---|---|---|
| Markers.MarkerFilter.Push | src/privilege.rs:100-119 | One chunk: what was settled before and what this chunk settles is what the whole stream so far settles; a drop is reported exactly when the cap cut something; an ask exactly when the whole-stream scan now removes more markers |
| Markers.MarkerFilter.PushText | src/privilege.rs:104-118 | The held tail and the chunk scanned as one text give the online specification's output, held suffix and ask |
| Markers.MarkerFilter.Finish | src/privilege.rs:122-125 | At the end of the stream the held bytes are exactly what the stripped stream still lacks |
| Markers.SafePrefix | src/privilege.rs:143-152 | The suffix held back is the longest that is a proper start of the marker |
| Markers.Find | src/privilege.rs:136-140 | The search finds the first occurrence, and says none only when there is none |
| Markers.FirstAtIsLeftmost | src/privilege.rs:136-140 | What the search reports is an occurrence with none to its left |
| Markers.FilterResumes | src/privilege.rs:100-119 | For every cut of the stream, output and held bytes depend on the past only through the held bytes |
| Markers.StripIsSettledThenPending | src/privilege.rs:122-125 | Settled output followed by the held bytes is the stripped stream: nothing is lost at its end |
| Markers.PendingMayVanish | src/privilege.rs:80-81 | Holding back is necessary: for every stream there is a continuation that removes all that is held |
| Markers.StripConserves | src/privilege.rs:77-81 | Every byte of the stream is kept or belongs to a removed marker |
| Markers.EndIsAMarker | src/privilege.rs:106-110 | Every reported end is the end of an occurrence of the marker |
| Markers.ChunkHoldsItsEnds | src/privilege.rs:90-93 | The markers a chunk adds are exactly the whole stream's that end inside that chunk |
| Markers.ReadStderr | src/run/prompt.rs:190-220 | For every chunking, failing read and cap: kept is the first `cap` bytes of the stripped stream, truncated says whether it was longer, and the asks are those of the reference |
| Markers.AskedAtMarkerEnds | src/run/prompt.rs:206-212 | An ask is made exactly at the chunks holding the last byte of a removed marker, up to the first ask that goes unanswered |
| Markers.ReadCapped | src/run/stream.rs:15-36 | The first `cap` bytes of what was read are kept, and truncation reported exactly when there were more |
| PromptClocks.PromptClock.AskingNow | src/privilege.rs:402-409 | The ask's start replaces whatever was there and the time already spent is kept |
| PromptClocks.PromptClock.Release | src/privilege.rs:428-439 | The ask in progress, if any, is added to the time spent and closed |
| PromptClocks.SpentIsTicksAsked | src/privilege.rs:364-369 | Over every run in which a Host's asks do not overlap, the clock charges the Host exactly the ticks its own ask was out |
| PromptClocks.OtherAsksCostNothing | src/privilege.rs:336-339 | Taking every other Host's asks out of a run leaves what this Host is charged unchanged |
| PromptClocks.SecondAskKeepsTheCharge | src/privilege.rs:402-406 | Asking while an ask is out keeps the charge if and only if the first ask has cost nothing yet |
| Deadlines.World.WaitBounded | src/interrupt.rs:200-241 | Against every schedule: a timeout only on a decision that is short of the limit by at most the gaps of its last measurement, and with the limit used while the child ran or while nobody could see it gone; no tick passes over something ready while the wait is free to act; whoever still waits is at its own prompt, has time left, or is held by an ask being served, and past its limit away from its own prompt only the last; at most one turn more than the wake-ups sent, and those no more than the changes of asks during the wait and the wake-ups owed when it began |
| Deadlines.World.Turn | src/interrupt.rs:214-241 | One turn ends the wait for a stated reason, or a wake-up sent during it pays for another |
| Deadlines.World.Decide | src/interrupt.rs:229-240 | After a sleep that ran out, going round again takes a wake-up sent since the turn's first look; otherwise the limit has run out, by a decision made of both measurements |
| Deadlines.World.OwnTime | src/interrupt.rs:266-276 | What is computed is the reading at the positions its clocks were read at: the time since the start less what the Host's asks cost between the two readings of it, whatever happens in between |
| Deadlines.World.WaitOutPrompt | src/privilege.rs:379-391 | It returns only when the Host's ask is not out, and is stuck only while it is out, its own wake-up is owed, or the main task is serving an ask |
| Deadlines.World.Select | src/interrupt.rs:221-227 | Each branch is taken only for its reason, as soon as it is ready and no ask is served: the child is gone, the whole sleep passed, or a notification came |
| Deadlines.World.Sleep | src/interrupt.rs:221-227 | Parked, it is never the timer's for a child already gone before the deadline, unless an ask was served meanwhile |
| Deadlines.World.Step | src/run/prompt.rs:161-185 | Every event of the rest of the program keeps the clock true to its past, one ask of a Host at a time, each change owing one wake-up until it is sent, and an ask being served out until it is answered |
| Deadlines.WhatEventsComeTo | src/run/prompt.rs:161-185 | Over any run of events the child is gone exactly if it was or exited, and as many ticks have passed as there were |
| Deadlines.World.RunScript | src/run/script.rs:69-94 | Over the copy and the run together a timeout is short of the original limit by at most the gaps of the measurement that decided it, also when the copy used all of it; and neither the copy nor the two together run on past it, but at the Host's own prompt or held by an ask being served; without a good copy there is no run |
| Deadlines.HeldUntilAnswered | src/run.rs:186-203 | A parked wait held by an ask being served stays held through every event but its answer, which frees it |
| Deadlines.HeldPastAnyLimit | src/run.rs:186-203 | For every limit, a run in which a Host that asked for nothing has used all of it and is held by another Host's ask |
| Readings.ReadingIsOwnTimeAndGaps | src/interrupt.rs:266-276 | Wherever the four readings fall among the events, what is computed from them is the Host's own time plus the ticks of its own ask in the two gaps |
| Readings.SummedIsEach | src/privilege.rs:362-438 | The sum the waiting task's past is kept by says what the run's instant, clock, open ask, charged ticks and order of asks are, each defined on its own |
| Readings.WhenATimeoutIsEarly | src/interrupt.rs:229-240 | A timeout is short of the limit by no more than those ticks, and early if and only if the reading overshoots the limit by less than them |
| Readings.ShortByTheSlack | src/interrupt.rs:229-240 | With or without prompts, whoever runs out of a limit has counted all of it but for the gaps of the last measurement |
| Readings.OnTimeWithoutAnAsk | src/interrupt.rs:198-199 | Never early for a Host without an ask out as the wait begins, unless one goes out before the first reading or after its last check |
| Readings.WhichWaitsCanTimeOutEarly | src/interrupt.rs:198-241 | An early timeout exists if and only if prompts are left out of a limit that is not zero |
| Readings.EarlyByTheFirstGap | src/interrupt.rs:210-213 | For every limit, a run that times out on no time, by an ask out between the start and the first reading |
| Readings.EarlyByTheLastGap | src/interrupt.rs:266-276 | For every limit, one that does with no ask out at the start, by an ask torn by each measurement |
| Wakeups.NoLostWakeup | src/interrupt.rs:171-189 | A parked waiter nobody has woken though its condition holds is owed a notification by a task it waited for, and that wakes it |
| Wakeups.NobodyIsForgotten | src/privilege.rs:379-391 | In every reachable state a parked waiter still waits for someone or is owed a notification |
| Wakeups.WaiterGetsThrough | src/interrupt.rs:171-189 | Once the condition holds, the notifications already owed are enough for the waiter to return |
| Wakeups.ChildrenAreBusy | src/interrupt.rs:66-80 | The in-flight set of the interrupt is an instance of that protocol, with deregistration the notifying change |
| Wakeups.AsksAreBusy | src/privilege.rs:402-439 | So is the set of Hosts whose ask is out, for the wait on one Host |
| Interrupts.Interrupt.Register | src/interrupt.rs:66-75 | The child is in flight, and marked killed and refused exactly when the run is stopping |
| Interrupts.Interrupt.Deregister | src/interrupt.rs:77-80 | The child is no longer in flight and nothing else changes |
| Interrupts.Interrupt.Begin | src/interrupt.rs:126-146 | The first caller alone gets the children in flight, all of them marked killed; any later call changes nothing |
| Interrupts.ConsistencyKept | src/interrupt.rs:34-41 | Not stopped means nobody is killed, stopped means everyone in flight is: kept by every operation |
| Settling.Settle | src/run/ssh.rs:46-116 | Whatever the other tasks do in between: judged killed exactly when a stop began before deregistration, terminated by itself exactly when it began before registration, and cancelled then whatever the exit status or limit |
| Settling.InFlightByItsPid | src/interrupt.rs:64-80 | What is in flight, and so handed to the first stop, is each Host with the pid it was last registered with |
| RunSteps.StepKeepsInv | src/run.rs:145-206 | Every step of a run, interleaved anyhow, keeps the invariants of the window, the in-flight set and the reports |
| RunSteps.RunsKeepInv | src/run.rs:145-206 | They hold in every reachable state |
| RunTheorems.WindowIsBounded | src/run.rs:145-163 | At most `fanout` Hosts hold a slot at every step, taken in selection order |
| RunTheorems.SomeStepIsEnabled | src/run.rs:145-163 | Until every Host is reported some Host can move, the stop notwithstanding |
| RunTheorems.StepDescends | src/run.rs:173-206 | Every step but a repeated stop uses the run up, so no run goes on for ever |
| RunTheorems.RunCompletes | src/run.rs:173-206 | Every run can be carried on to one that reports every Host |
| RunTheorems.EveryHostReportedOnce | src/run.rs:169-183 | At the end each selected Host is one outcome or one not started, and the counts add up to the selection |
| RunTheorems.NoStartAfterStop | src/run.rs:154-158 | A Host still waiting when the run stops never starts |
| RunTheorems.NotStartedMeansStopped | src/run.rs:154-158 | A Host is left out only by a stop |
| RunTheorems.JudgedByTheStop | src/run/ssh.rs:65-109 | A connection is judged killed exactly when the stop began before its child was deregistered, and is then cancelled |
| RunTheorems.StopCatchesAllInFlight | src/interrupt.rs:34-41 | In every reachable state: nobody killed before the stop, everyone in flight killed from it on |
| RunTheorems.KilledEndsCancelled | src/run/ssh.rs:106-109 | From the moment a Host is killed every later phase of it leads to cancelled |
| Reports.ReportedAsItEnded | src/run/ssh.rs:155-163 | In every finished run a Host no stop caught is reported as its last judged connection ended: timed out if the limit ran out, else by its exit status, a signal as cancelled, an unreadable status as unreachable; one whose ssh never started as unreachable |
| Reports.FailuresAreReported | src/run/outcome.rs:49-57 | A command that exited with anything but 0 and 255 is reported failed |
| Reports.WhatIsKnown | src/run/ssh.rs:123-168 | In every reachable state, between judgement and report, the status is one the last judged connection deserves |
| RunTheorems.CaughtMeansInterrupted | src/run/outcome.rs:106-115 | The outcomes of a finished run whose stop caught any Host in flight come to 99 |
| WholeRuns.BothAgree | src/run.rs:166-206 | Every run of the loop together with the Hosts is a run of each, and they agree on the stop, the outcomes and the count of those not started |
| WholeRuns.CodeOfAFinishedRun | src/run.rs:210-219 | A finished run exits 1 exactly when it failed itself, whatever it caught; otherwise 99 exactly when some Host was cancelled, and so whenever the stop caught one; and the counts add up to the selection |
| WholeRuns.FailuresReachTheCode | src/run/outcome.rs:106-127 | Without a failure of its own and with nobody cancelled a finished run's code has bit 2 exactly when some Host failed and bit 4 exactly when one was unreachable or timed out, and every judged Host is among the statuses as it ended |
| RunTheorems.OneTermPerCaughtChild | src/run/ssh.rs:65-69 | A caught child is assigned one SIGTERM, by the owner's snapshot or by its own failed registration, never both |
| Outcomes.ExitCode | src/run/outcome.rs:109-127 | 99 exactly when some Host was cancelled; otherwise bit 2 exactly for a failure, bit 4 exactly for an unreachable or timed-out Host, and no other bit |
| Outcomes.ExitCodeIgnoresOrder | src/run/outcome.rs:109-127 | Reordering the outcomes does not change it |
| Outcomes.CountsAddUp | src/report.rs:315-331 | The six counts of the summary leave out no outcome and count none twice |
| Outcomes.OutcomesKeepTheirEnd | src/run/ssh.rs:155-207 | A Host has an exit code exactly when its command ended on its own and said one, and the code then says the status; what it printed is kept |
| Collection.Collect | src/run.rs:166-219 | For every sequence of events: the outcomes and the not-started count are exactly what settled, and the exit code is local exactly when the run itself failed |
| Collection.Serve | src/run/prompt.rs:49-81 | The Host gets the store's answer; a refusal or an interrupted prompt stops the run before the Host is told and ends the asking |
| Collection.OnlyTheLastAskFails | src/run.rs:186-203 | A run's own failure is a refused prompt, it is the last ask served, and every earlier ask was given a password |
| Collection.StopServesNobody | src/run.rs:188-193 | From the stop on no ask is served and the failure does not change |
| Collection.AsksAreServedInOrder | src/run.rs:186-203 | Asks are served in the order they come, from the first, until one is given no password, comes after the stop, or the askers are gone; asking goes on exactly as long, and the run is stopping exactly after Ctrl-C or an ask without an answer |
| Collection.OnePromptPerRun | src/run.rs:186-200 | In every run the shared password is prompted for at most once more than Hosts asked again |
| Passwords.Privilege.GetAnswer | src/privilege.rs:208-250 | The answer and the whole new store, for a password in hand and for each thing a prompt can bring |
| Passwords.Privilege.TakeUntried | src/privilege.rs:278-297 | A password this Host has not had is handed over and marked as given |
| Passwords.Privilege.Remember | src/privilege.rs:299-317 | A new shared password is due to every other Host again; a Host's own is its alone |
| Passwords.AskIsAnswered | src/privilege.rs:204-250 | Told from the asks alone: a Host with its own password is always prompted for, a sharing Host exactly when there is none yet or it has asked since the newest was typed; an interrupted prompt stops, one that brings nothing refuses |
| Passwords.WhichPromptsFail | src/privilege.rs:226-250 | A prompt fails the run exactly when nothing was typed, there was no terminal, or the asking broke, with that reason |
| Passwords.GivenIsNewest | src/privilege.rs:278-317 | What a Host is given was typed at an ask of its own kind: its own ask for an own password, the newest shared prompt for the shared one |
| Passwords.NeverTheSameTwice | src/privilege.rs:176-179 | The passwords one Host is given are ever newer |
| Passwords.OnePromptServesAll | src/privilege.rs:278-317 | Shared prompts number at most one, plus asks by Hosts that had asked, plus first prompts that brought nothing |
| Passwords.BlindToPasswords | src/privilege.rs:278-317 | Who is prompted and which typed password each Host gets do not depend on what the passwords are |
| Passwords.EveryRunCanBeNumbered | src/privilege.rs:278-317 | Any run of asks is a numbered one with the numbers rubbed out, so theorems about numbered runs are about all runs |
| Passwords.FirstFailureIsKept | src/privilege.rs:319-325 | The failure a run reports is its first |
| Passwords.NoFailure | src/privilege.rs:252-255 | A run none of whose prompts failed reports none |
| Passwords.AStopMayUseMore | src/privilege.rs:262-275 | A run of one ask after which a stop of another Host, which never asked, is handed the password |
| Passwords.StopUsesWhatTheHostWasGiven | src/privilege.rs:262-275 | A stop uses the password its Host was last given if and only if the Host has its own, or there is no shared one, or it was given the shared one |
| HostPatterns.Expand | src/host.rs:280-355 | The loops that count first and build afterwards compute the reference expansion, with every error of it |
| HostPatterns.PiecesReadBack | src/host.rs:281-307 | Prefix, list and suffix without stray brackets are read back from the pattern they make |
| HostPatterns.SplitOnIsExact | src/host.rs:313 | Splitting a list and joining it again gives the list, and no item holds the separator |
| HostPatterns.WhatCanBeExpanded | src/host.rs:280-345 | A name expands exactly when it has no bracket, or is one pattern with one nonempty list whose items are all ranges and together fit the cap |
| HostPatterns.WhyItCannotBeExpanded | src/host.rs:280-345 | Whatever is complained of is so: of the brackets, or of one item, every item before it being a range and all of those fitting the cap |
| HostPatterns.ItemsAreRanges | src/host.rs:314-335 | An item is a range exactly when it is one number, or two with one dash between that do not count down |
| HostPatterns.ItemIsRead | src/host.rs:314-344 | Such an item is read as its two numbers and the width its first one is written in |
| HostPatterns.RangesSucceed | src/host.rs:313-345 | A list is accepted exactly when every item is a range and together they fit the cap |
| HostPatterns.ExpansionIsItsRanges | src/host.rs:347-354 | The names are, range by range and in order, prefix, padded number and suffix; their count is the sum of the range sizes, at most 65536 |
| HostPatterns.NameAt | src/host.rs:343-354 | Every name of an expansion, by its item and its place in it: prefix, the lower bound and so many more in digits, padded to the lower bound's width and no further, and suffix |
| HostPatterns.SizesOfOneMore | src/host.rs:337-351 | The places are counted from none, and each item takes as many as lie between its bounds |
| HostPatterns.RangeNamesDiffer | src/host.rs:348-351 | Names from one range are pairwise distinct, however they are padded |
| HostPatterns.ValueOfPad | src/host.rs:350 | A padded number is digits only and reads back as the number |
| HostPatterns.PadOfValue | src/host.rs:343-350 | A number written in digits, read and padded to its own width, is itself |
| HostPatterns.BoundRoundTrips | src/host.rs:361-365 | Padding a bound to its own width gives its text back if and only if it has no plus sign |
| HostPatterns.LoneNumberPattern | src/host.rs:326-352 | A lone number in brackets expands to the name without the brackets |
| HostFiles.Parse | src/host.rs:177-230 | It succeeds exactly on files whose entries are all good, whose names are distinct and which declare no group `all`; the Hosts are then the entries' expansions in file order; a failure names something true of the file, and a name declared twice by its first declarer |
| HostFiles.HostAt | src/host.rs:214-221 | Every Host by its entry and its place in it: in file order, under its name, with its entry's user, port, address and mark |
| HostFiles.HostsAreValid | src/host.rs:239-257 | Every Host of a parsed file has a valid name |
| HostFiles.WhichNamesAreValid | src/host.rs:239-274 | A name or user is valid exactly when it is nonempty and all letters, digits, dots, underscores and dashes, a name not beginning with a dash |
| GroupResolution.GroupWalk.ExpandGroup | src/host.rs:62-107 | It terminates for every group map, succeeds exactly when the group resolves from inside those being visited, returns exactly the Hosts reachable from it, and leaves the visiting stack as it found it; a failure is true of the groups |
| GroupResolution.GroupWalk.Match | src/host.rs:111-126 | A selector matches a declared name, or the declared names its pattern expands to |
| GroupResolution.MatchedIsListed | src/host.rs:111-126 | A selector matches exactly the declared names it lists, itself or the names it expands to, and fails only as a pattern that cannot be expanded |
| GroupResolution.ResolvesMeansAcyclic | src/host.rs:78-83 | From the top, resolving is having good leaves in reach and no cycle in reach, so a diamond is no cycle |
| GroupResolution.ResolvesUnfolds | src/host.rs:85-103 | Resolving a group is resolving each selector one level further in |
| GroupResolution.ReachesUnfolds | src/host.rs:85-103 | A Host is reached through a group's own leaves or through its child groups |
| Selection.SelectedNames | src/host.rs:52-60 | The union of the named groups' Hosts, when all of them resolve |
| Selection.Select | src/host.rs:38-50 | It succeeds exactly when every named group resolves, and depends only on the set of groups named |
| Selection.SelectionIsExact | src/host.rs:38-50 | A selection is a duplicate-free subsequence of the file holding exactly the Hosts the groups stand for |
| Selection.SelectedIsListed | src/host.rs:38-126 | A run touches a declared Host exactly when no group was named, `all` was, or a group named has it listed, by name or by a pattern that expands to it, in some group in its reach |
| Selection.MembersAreListed | src/host.rs:62-126 | The Hosts of a group that resolves are the declared Hosts listed in its reach |
| Quoting.ScanEscaped | src/remote.rs:106-111 | A quoted text is read back as itself, whatever it holds |
| Quoting.WordsArrive | src/remote.rs:96-99 | Words joined by blanks are read as those words if and only if none of them is empty text |
| Remote.OneWordRoundTrips | src/remote.rs:106-111 | For every script the shell reads `sh`, `-c` and that script |
| Remote.MarkedRoundTrips | src/remote.rs:96-104 | Unwrapping a marked command gives the command's text |
| Remote.MarkedInSequence | src/remote.rs:100-102 | A marked command is its wrapper's statements in order: name and write the marker, run, keep the status, remove the marker, exit with the status |
| Remote.DetachedRoundTrips | src/remote.rs:135-151 | Unwrapping a detached command through two or three shells, with or without sudo, gives the command's text |
| Remote.PayloadInSequence | src/remote.rs:136-138 | So is a launched payload |
| Remote.ElevatedIsRead | src/remote.rs:143-147 | The sudo of a detached command elevates the whole launcher as one word |
| Remote.ElevatedOnce | src/run/detach.rs:20-25 | However a command is sent the Host comes down to the command as typed, elevated once if at all |
| Remote.RunArgvIsRead | src/run/script.rs:146-160 | One sudo elevates the whole chain of a copied script and nothing of its removal |
| Remote.CopiedScriptIsRead | src/run/script.rs:213-225 | That holds inside the marker for every path a Host can have printed |
| Remote.WhatIsTakenForAPath | src/run/script.rs:213-225 | What a Host printed is taken for a path exactly when its last line that holds anything is one, absolute and plain |
| Remote.PathIsItsLastLine | src/run/script.rs:213-225 | Such a path is a whole line with only line ends after it, and no shell reads any of it as more than itself |
| Remote.MarkerPathIsPlain | src/remote.rs:71-75 | A valid Host name puts nothing into its marker that a shell reads as more than itself |
| Remote.StopArrives | src/remote.rs:215-231 | A stop's words arrive as meant if and only if it is not an elevated stop with a password |
| Remote.LostPromptIsRead | src/privilege.rs:51-64 | What sudo is handed in that case |
| ProcessTree.Walk | src/remote.rs:274-282 | On any snapshot and any iteration order it ends, and lists the root and each process below it exactly once, parents first, and nothing else |
| ProcessTree.ClosedHoldsTree | src/remote.rs:277-280 | A set that holds the root and is closed under children holds the whole tree |
| StopMarkers.LateReadIsTrue | src/remote.rs:256-265 | A stop that reads after the write finds the wrapper's own pid, or nothing because the command has ended |
| StopMarkers.WhenAStopIsReliable | src/remote.rs:258-265 | From the moment it reads a stop leaves nothing running, in every continuation, if and only if the pid has been written by then or the command is over by then |
| StopMarkers.AnEmptyReadMisses | src/remote.rs:270-273 | A run in full whose stop reads the marker before it is filled, gives up, and the command then starts |
| StopMarkers.EarlyReadMisses | src/remote.rs:258-265 | Every earlier read has a continuation in which the stop is done and the command runs |
| StopMarkers.OnlyTheWrapperIsKilled | src/remote.rs:270-284 | No other pid is ever read, and nothing is killed whose pid was not |
| StopMarkers.NoMarkerIsLeft | src/remote.rs:86-91 | Once the wrapper is gone, by its own end or a stop, no marker is left |

Three more facts are true almost by construction and are kept beside these:
attached outcomes' code ignores what was printed (`ExitCodeIgnoresOutput`), a
stopped run's escalation has one owner (`OneOwner`), and the count of an expansion
does not saturate (`CountNeverSaturates`).

## Left out

- Deadlines.World.WaitBounded: a wait may also be late by the ticks between a measurement and the timer armed after it, which the contract counts (`lag`). The schedule is finite, so it speaks of every finite stretch of a run; a wait the schedule outlives is `StillWaiting`. Ending the child after a timeout, with its grace period, is signals and is not modelled.
- Deadlines.World.AskOpens: the code reads the instant just before it takes the lock (`src/privilege.rs:402-406`), so an ask's start can lie a little before others can see it; here both are one step.
- Deadlines.World.RunScript: whether a copy that ended well is a good one (its exit status, and a path printed) is a parameter.
- Wakeups.WaiterGetsThrough: a woken waiter is polled in the end; that the main task may be at a prompt meanwhile is modelled in `Deadlines` alone.
- RunSteps.StepKeepsInv: a child without a pid (`src/run/ssh.rs:59-69`) is never registered, so a stop cannot catch it; `Settling.Settle` has that case, the step system does not.
- HostPatterns.Expand: the formatter of the code takes a width of at most 65535, and a lower bound written with more digits makes it panic (`src/host.rs:350`); here such a bound expands like any other, and so it does in `ExpansionIsItsRanges` and `LoneNumberPattern`.
- GroupResolution.GroupWalk.ExpandGroup: which of several errors is reported first is not stated, only that the one reported is true.
- StopMarkers.WhenAStopIsReliable: a kill is one step, SIGTERM and SIGKILL together; processes forked after the snapshot and pids used again are outside it.
- Remote.MarkedRoundTrips: the shell read here knows blanks, single quotes and backslashes, and stops at anything else special; the scripts' own statements are matched as text, not interpreted.
- Remote.StopArrives: the stop script is any text without a single quote, as its comment requires; sudo's own reading of its options is not modelled.
- Passwords.Privilege.GetAnswer: the prompt itself is a parameter, and asks are served one at a time, as the main task does.
- `under_sudo`, `under_sudo_unprompted` and `run_argv` are values here; that they are built by pushing onto a vector is not shown.
- What the escalation does after its grace period: a child registered after it finished gets no SIGKILL from it, and none is claimed.
- What a detached launch or an unreadable path rewrites in an outcome (`src/run/detach.rs:35-62`, `src/run/script.rs:231-238`): in the step system an outcome that ended well may become running or unreachable there; decoding the pid would only add easy members.
- The cause inferred from stderr: advisory, and it never changes a status.
- Spawning, sockets, signals, the terminal, the stop connection and its time limit, and the runtime behind the window: foreign calls, represented by events.
- Argument parsing, TOML and JSON decoding, host-file lookup: the model starts from decoded entries.
- UTF-8: a printed path is a sequence of characters; bytes that do not decode are not modelled.
- The heartbeat, colours and report layout beyond the summary's counts.
