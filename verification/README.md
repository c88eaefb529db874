# Nodeglow: verified models of its stateful core

Nodeglow is a monitoring system: a backend (`backend/`), agents that can also probe other hosts
(`agent/`), and a sidecar that updates the whole stack (`sidecar/`). This project models the parts of
it that keep state over time or compute with numbers, and proves what they guarantee over every run and
every input. `dafny verify dfyconfig.toml` checks it.

Code that updates objects is modelled by classes whose methods have the source's branches. Each method is
proved against a step function on values, and the theorems are about runs of those steps. What comes from outside
(replies, verdicts, exit codes, failing file operations, clock readings) is a parameter of the steps, so
every theorem is about all of its values.

| file | models |
|---|---|
| `Heartbeat.dfy` | the probe's main loop and its bounded buffer of undelivered results |
| `CheckRunner.dfy`, `HostCheck.dfy` | a round of concurrent checks under a semaphore; one host's checks and their fold into a result |
| `BinarySwap.dfy` | the agent's self-update and the Windows wrapper, with failures and crashes between file operations |
| `UpdateRun.dfy`, `UpdateCommands.dfy`, `Backups.dfy` | the sidecar: step runner, state file, commands, dumps |
| `LeaderLease.dfy` | lease-based scheduler leadership |
| `PingCycle.dfy` | the port_error latch and the offline grace period |
| `ClusterPrimary.dfy` | primary and standby members of a cluster group |
| `DnsMerge.dfy`, `AutoAdd.dfy` | merging duplicate hosts; adding scanned hosts |
| `DiskIncident.dfy`, `IncidentOverlap.dfy` | the disk incident; incident handlers whose reads and commits overlap |
| `DiskHistory.dfy`, `DiskForecast.dfy` | the stored disk samples; the forecast |
| `Lockout.dfy`, `Cooldown.dfy` | pruned tables that decide as full histories would |
| `WilsonBound.dfy` | the Wilson score lower bound |
| `Text.dfy`, `Options.dfy` | ASCII string operations and an option type |

## Where the code does less than it promises

Each of these is a theorem below, with the exact condition under which the promise holds.

- A write of `nodeglow-agent.exe.new` that breaks off leaves a partial file which the wrapper renames over
  the executable; the old binary is deleted after the failed start, and the installation is lost
  (`BinarySwap.AlwaysRecoverableExactly`, `BinarySwap.TornWriteLosesTheAgent`).
- A leader keeps its state when its polls fail, so two schedulers run once its lease has expired and
  another instance has asked (`LeaderLease.SecondLeaderExactly`,
  `LeaderLease.LeaderWithFailingPollsIsDoubled`).
- The correlation sweep resolves the disk incident however full the disk is, so incidents are opened and
  closed in turn while the disk stays full (`DiskIncident.StaysLiveExactly`,
  `DiskIncident.SweepMakesTheIncidentFlap`).
- No handler locks or re-reads an incident: an acknowledgement that was waiting for its request body undoes
  a resolution, and checks of two running schedulers can both open a disk incident
  (`IncidentOverlap.ResolvedIsFinalExactly`, `IncidentOverlap.OneLiveDiskExactly`,
  `IncidentOverlap.TimesFitExactly`, `IncidentOverlap.LateAcknowledgementRevives`).
- A host that was renamed to another address is merged away for its old address
  (`DnsMerge.HostnameSurvivesExactly`, `DnsMerge.RenamedHostIsLost`).
- A router's reset of `port_error` leaves the streaks, so the next cycle can set the flag again without a
  new failure (`PingCycle.OutsideResetIsUndone`, `PingCycle.ResetCanBeUndone`).
- A back-online notice is lost for good if the look-up of the previous state fails in the cycle in which
  the host returns (`PingCycle.BackOnlineExactly`).
- `prune_backups` returns a wrong count for a negative retention, and whenever a removal fails; a retention
  of zero deletes the dump the update has just made (`Backups.ReturnedCountExactly`,
  `Backups.StuckDumpIsNotCounted`, `Backups.FreshDumpSurvivesExactly`).
- `by_name` returns the first step of a name, so a second step of the same name stays pending in a run
  that is reported done (`UpdateRun.AllSucceedExactly`, `UpdateRun.DuplicateNamesLoseAStep`).
- `current_status` prefers the state file to the state in memory, so an old file whose overwriting failed
  hides the end of a run (`UpdateRun.ReportsTheEndExactly`, `UpdateRun.OldFileHidesTheEnd`).
- A second scan can add a host that the first one did not: the index keeps only the part of an IPv6
  address before its first colon (`AutoAdd.SecondScanAddsNothingExactly`, `AutoAdd.SecondScanCanAdd`).
- A check result can contradict its own detail map when two of its check types share a key
  (`HostCheck.DetailTellsSuccessExactly`, `HostCheck.TwoPingsCanDisagree`).

## Model

| member | source | states |
|---|---|---|
| Heartbeat.PendingResults.PushRound | agent/src/checks.rs:134-153 | the buffer becomes the newest 1000 of buffer and round; the count returned and added to the total is exactly what fell out |
| Heartbeat.PendingResults.Clear | agent/src/checks.rs:161-163 | the buffer empties, the total of discarded results stays |
| Heartbeat.ProbeLoop.TakeTurn | agent/src/main.rs:88-204 | one turn reports what is pending, clears it only on an answered report, keeps the assignments on an error, and buffers the next round |
| Heartbeat.EveryRunDelivers | agent/src/main.rs:104-147 | over every run and every fate of the reports: each result is exactly one of cleared, discarded, pending; pending is the newest part, at most 1000; only the cap discards and the total counts it; what was cleared was in an answered request; received batches are contiguous, never step back, and never repeat answered results |
| Heartbeat.TurnExactly | agent/src/main.rs:104-204 | what one turn does, field by field: when the agent stops, what it is told to check, when it has a client, which results it produces and which of them it keeps |
| Heartbeat.RunsExactly | agent/src/main.rs:104-175 | the agent runs exactly until a turn applies an update or reads an answer that uninstalls it |
| Heartbeat.AssignmentsExactly | agent/src/main.rs:104-147 | over every run a running agent checks the assignments of the last answer it read |
| HostCheck.ParsedExactly | agent/src/checks.rs:653-664 | the types are the comma-separated pieces that are not blank, stripped and in lower case, in order if none is blank; a ping if all are blank |
| HostCheck.JoinOfSplit | agent/src/checks.rs:654-655 | every setting is its comma-free pieces joined by commas |
| HostCheck.TwoPingsParsed | agent/src/checks.rs:653-664 | "icmp, icmp" gives two pings |
| HostCheck.DetailLabel | agent/src/checks.rs:668-673 | a check is labelled "icmp" exactly when it is a ping |
| HostCheck.LabelsCollideExactly | agent/src/checks.rs:666-673 | two types share a label if and only if they are equal, or are a plain tcp check and the tcp check of the assigned port |
| HostCheck.LabelExactly | agent/src/checks.rs:666-673 | only a plain tcp check of a host with a port is labelled otherwise than its type, by the port in decimal digits |
| HostCheck.DecimalExactly | agent/src/checks.rs:670 | the decimal form of a number |
| HostCheck.PerformableExactly | agent/src/checks.rs:602-641 | which checks have a usable target: pings and tcp checks prefer the ip, http and https checks the hostname |
| HostCheck.RunOne | agent/src/checks.rs:281-310 | the loop over the types computes the result about which the lemmas below speak |
| HostCheck.Summarize | agent/src/checks.rs:680-706 | folds the outcomes; the map holds the last outcome for each key |
| HostCheck.SuccessExactly | agent/src/checks.rs:675-686 | success exactly when every ping was carried out and answered, or, with no ping configured, some check was; a check that cannot be performed never makes a success |
| HostCheck.LatencyExactly | agent/src/checks.rs:688-692 | the latency is the first ping's if it measured one, else the first measured, and is missing only if nothing was measured |
| HostCheck.DetailTellsSuccessExactly | agent/src/checks.rs:680-706 | the detail agrees with success whatever the host answers if and only if no check that can be performed and decides about success shares its key with a later one |
| HostCheck.TwoPingsCanDisagree | agent/src/checks.rs:680-706 | "icmp, icmp" is such a setting for every host that can be pinged |
| CheckRunner.CheckRound.SpawnNext | agent/src/checks.rs:230-244 | one more task, waiting for a permit |
| CheckRunner.CheckRound.Acquire | agent/src/checks.rs:239-240 | a waiting task takes a permit |
| CheckRunner.CheckRound.Complete | agent/src/checks.rs:240-241 | a task ends with its host's result and gives its permit back |
| CheckRunner.CheckRound.Unwind | agent/src/checks.rs:249-251 | a cancelled or panicked task gives back the permit it held |
| CheckRunner.CheckRound.AwaitNext | agent/src/checks.rs:246-261 | the next result in assignment order: the task's own, or a failure for a lost task |
| CheckRunner.CheckRound.AwaitAll | agent/src/checks.rs:246-262 | with all tasks ended, the loop collects one result per assignment in order |
| CheckRunner.NeverMoreThanTheLimit | agent/src/checks.rs:227-241 | under every interleaving at most 64 checks are in flight, and a queued task can start if and only if there are fewer |
| CheckRunner.PossibleExactly | agent/src/checks.rs:227-261 | what may happen next in a round, and to each of its tasks |
| CheckRunner.RoundAlwaysEnds | agent/src/checks.rs:215-270 | no interleaving has more than four events per assignment, and an unfinished round can always go on without a task dying |
| CheckRunner.FinishedRoundIsComplete | agent/src/checks.rs:217-261 | a finished round has one result per assignment in assignment order, each the task's own or, exactly for the dead ones, a plain failure; all permits are back |
| CheckRunner.SuccessIsNeverInvented | agent/src/checks.rs:218-219 | a reported success comes from a finished task one of whose checks was carried out and answered |
| BinarySwap.InstallDir.ApplyUpdate | agent/src/updater.rs:153-175 | the new disk state for every combination of failing operations; success means the new bytes are installed or staged beside an untouched executable |
| BinarySwap.InstallDir.SwapStaged | backend/routers/agents.py:902-907 | the swap block of the wrapper for every combination of failing operations |
| BinarySwap.ApplyIsARun | agent/src/updater.rs:158-172 | an update without a crash is the run of its single file operations |
| BinarySwap.PassIsARun | backend/routers/agents.py:902-907 | a wrapper pass is the run of its single file operations |
| BinarySwap.AlwaysRecoverableExactly | agent/src/updater.rs:152-175 | a complete binary is in .exe or .new at every moment if and only if the wrapper never moves the executable away for a torn .new |
| BinarySwap.UntornRunsAreRecoverable | agent/src/updater.rs:87-120 | without a torn write, whatever fails and wherever it crashes, .exe or .new is complete |
| BinarySwap.TornWriteLosesTheAgent | backend/routers/agents.py:900-923 | for every accepted offer there is a run that leaves only a torn executable |
| BinarySwap.WrapperPassExactly | backend/routers/agents.py:901-913 | exactly when one pass leaves a complete executable |
| BinarySwap.OnePassRepairs | backend/routers/agents.py:900-913 | from any moment of a run without torn writes, one pass whose operations succeed leaves a complete executable |
| BinarySwap.LinuxExeIsAlwaysWhole | agent/src/updater.rs:131-150 | on Linux the executable is complete at every moment, torn writes included, and is the first one or a verified one |
| BinarySwap.OnlyVerifiedBytes | agent/src/updater.rs:89-118 | every complete file on disk holds the first binary or bytes that passed the hash and signature checks |
| BinarySwap.WindowsFilesAreVouched | agent/src/updater.rs:89-118 | on Windows, in every run, a complete file holds the first binary or data that an update offered with its hash, and, if a key is configured, with a signature that verifies under it |
| BinarySwap.LinuxFilesAreVouched | agent/src/updater.rs:89-118 | the same on Linux, for the executable and the temporary file |
| BinarySwap.OffersInstalledExactly | agent/src/updater.rs:64-118 | a running agent starts to write an offer if and only if its hash is hex digits of even number, is not that of the running binary and is that of the data, and a configured key has a signature that verifies |
| BinarySwap.WindowsUpdateExactly | agent/src/updater.rs:152-175 | the files an update leaves and whether the agent exits, for every combination of failing operations |
| BinarySwap.WrapperTurnExactly | backend/routers/agents.py:900-923 | the files a turn of the wrapper leaves and what it starts, for every combination of failing operations |
| BinarySwap.OtherEventsExactly | agent/src/updater.rs:152-175 | a crash touches no file; updates and exits concern only a running agent, and only a write can break off |
| BinarySwap.LinuxUpdateExactly | agent/src/updater.rs:131-150 | the same on Linux: the executable is replaced at once, and only after a write and a change of mode that succeeded |
| BinarySwap.LinuxOtherEventsExactly | agent/src/updater.rs:131-150 | no other event touches a file |
| UpdateRun.UpdateState.FindStep | sidecar/orchestrator.py:84-88 | the search finds the first step of the name |
| UpdateRun.UpdateState.WriteState | sidecar/orchestrator.py:137-145 | the current state is written; a failed write leaves the file as it was and nothing else changes |
| UpdateRun.UpdateState.RunStep | sidecar/orchestrator.py:154-172 | one turn of the loop writes the running and then the ended state |
| UpdateRun.RunUpdate | sidecar/orchestrator.py:148-178 | the states written and the step functions called, independent of which state-file writes fail |
| UpdateRun.EveryStateIsShaped | sidecar/orchestrator.py:148-178 | for distinct names and any outcomes: successes, then at most one running or failed step, then pending; steps only move forward; done exactly when all returned, else failed at the one that raised with no later one called |
| UpdateRun.StatesExactly | sidecar/orchestrator.py:148-178 | every state that a run of distinctly named steps writes, field by field, with the details returned and the last 500 characters of the message of the step that raised |
| UpdateRun.FileHoldsTheLast | sidecar/orchestrator.py:137-145 | the state file holds the last state whose write succeeded, or what it held before if none did |
| UpdateRun.AllSucceedExactly | sidecar/orchestrator.py:154-178 | a run whose step functions all return is reported done, and all its steps are marked ok if and only if their names are distinct |
| UpdateRun.DoneStepsExactly | sidecar/orchestrator.py:84-88 | in such a run a step ends ok if and only if no earlier step has its name, and is pending otherwise |
| UpdateRun.DuplicateNamesLoseAStep | sidecar/orchestrator.py:84-88 | the smallest such run |
| UpdateRun.UpdateServer.StartRun | sidecar/update-server.py:176-199 | 409 and no change while a worker lives, else a new worker |
| UpdateRun.UpdateServer.CurrentStatus | sidecar/update-server.py:158-167 | the file if readable, else the state in memory, else idle |
| UpdateRun.RunsNeverInterleave | sidecar/update-server.py:176-199 | whatever is requested when, the states written are those of whole runs, one after the other |
| UpdateRun.LiveRunReportsTheFile | sidecar/update-server.py:158-199 | while a run lives, what is reported is what the file holds, and never the state of the run before |
| UpdateRun.ReportsTheEndExactly | sidecar/update-server.py:158-197 | in every run of the server, when a worker ends, its final state is reported if and only if its last write succeeded, or none did and the run had found no file, or that very state in it |
| UpdateRun.OldFileHidesTheEnd | sidecar/update-server.py:158-167 | for every run and every other state in the file: if all its writes fail, that state is reported after its end |
| UpdateCommands.Ctx.RunCmd | sidecar/orchestrator.py:184-202 | a command and its reply join the trace |
| UpdateCommands.Ctx.StepPreflight | sidecar/orchestrator.py:205-247 | the step plays its script up to the first failed check |
| UpdateCommands.Ctx.StepBackup | sidecar/orchestrator.py:282-306 | the same for the dump |
| UpdateCommands.Ctx.StepPull | sidecar/orchestrator.py:309-335 | the same for the pull; the commit count may fail without failing the step |
| UpdateCommands.Ctx.StepBuild | sidecar/orchestrator.py:338-343 | the same for the build |
| UpdateCommands.Ctx.StepMigrate | sidecar/orchestrator.py:346-362 | the same for the migration |
| UpdateCommands.Ctx.StepRestart | sidecar/orchestrator.py:365-371 | the same for the restart |
| UpdateCommands.Ctx.RunDefaultSteps | sidecar/orchestrator.py:374-381 | the six steps in order up to the first that fails, as many as the runner calls |
| UpdateCommands.PlayStepsFollows | sidecar/orchestrator.py:154-172 | for any list of steps: the trace is an initial part of their commands, only its last reply may have failed, and success means all passed |
| UpdateCommands.CommandsComeInOrder | sidecar/orchestrator.py:205-381 | whatever the commands return: the trace is an initial part of the script in which only the last check may have failed, and a guarded command comes only after its guards have passed |
| UpdateCommands.IssuedExactly | sidecar/orchestrator.py:205-381 | in exit codes and outputs: the commands issued are the first ones of one fixed list; every reply but the last is good for its command; the run ends at the first that is not, or at a gate that is shut; it succeeds if and only if the gates are open and all replies are good |
| UpdateCommands.UpgradeIsGuarded | sidecar/orchestrator.py:298-362 | before the upgrade stand a dump with exit code 0, a pull with exit code 0 followed by a HEAD read as refs/heads/main, and a build with exit code 0 |
| UpdateCommands.RestartIsGuarded | sidecar/orchestrator.py:355-371 | before the restart stands an upgrade with exit code 0 |
| UpdateCommands.DirtyTreeEndsTheUpdate | sidecar/orchestrator.py:216-226 | nothing follows a git status that fails or prints anything but blanks |
| UpdateCommands.CalledExactly | sidecar/orchestrator.py:154-172 | a step is called if and only if every step before it passed |
| Backups.BackupDir.PruneBackups | sidecar/orchestrator.py:270-279 | the files left and the count returned, for any listing and any failing removals |
| Backups.BackupDir.StepBackup | sidecar/orchestrator.py:282-306 | a successful dump is added and the directory pruned; a failed one is removed again |
| Backups.ListingIsSound | sidecar/orchestrator.py:250-267 | the listing holds every dump that can be read once, newest first |
| Backups.BackupNamesExactly | sidecar/orchestrator.py:250-267 | a file is a dump if and only if its name is some stamp between "pre-update-" and ".dump.gz" |
| Backups.PruneTouchesOnlyDumps | sidecar/orchestrator.py:270-279 | for any retention and failing removals, only files of the name pattern disappear and the others are unchanged |
| Backups.PruneLeavesTheNewest | sidecar/orchestrator.py:270-279 | for a retention of at least zero: the newest dumps up to the retention are left, and beside them just the older ones that cannot be removed |
| Backups.ReturnedCountExactly | sidecar/orchestrator.py:270-279 | the count returned is the number left if and only if the retention is not negative and every dump past it can be removed |
| Backups.StuckDumpIsNotCounted | sidecar/orchestrator.py:273-279 | with retention zero a dump that cannot be removed is left, and zero is returned |
| Backups.FreshDumpSurvivesExactly | sidecar/orchestrator.py:270-279 | the strictly newest dump survives pruning if and only if the retention is positive, or negative with more dumps than it takes away, or the dump cannot be removed |
| Backups.SurvivesExactly | sidecar/orchestrator.py:272-278 | any dump survives if and only if it is listed within the retention or cannot be removed |
| Backups.BackupStepMakesADump | sidecar/orchestrator.py:289-291 | the file a backup step makes has the name pattern of a dump |
| Backups.BackupStepKeepsItsDump | sidecar/orchestrator.py:282-306 | with a positive retention a backup step leaves its own dump in place |
| LeaderLease.LeaseStore.TryAcquire | backend/services/shared_state.py:266-294 | granted exactly if free, expired or mine, and then mine for the term |
| LeaderLease.LeaderNode.ApplyLeadership | backend/scheduler.py:45-55 | the scheduler is resumed or paused on a transition only |
| LeaderLease.LeaderNode.TakePoll | backend/scheduler.py:58-73 | an error keeps the state; the scheduler runs exactly while the instance believes it leads |
| LeaderLease.AtMostOneTimelyLeader | backend/scheduler.py:58-73 | in every reachable state, of two leaders one has not completed a granted poll within its term; the scheduler runs exactly at the leaders |
| LeaderLease.MutualExclusion | backend/scheduler.py:30-36 | if no leader is overdue, at most one scheduler runs |
| LeaderLease.SecondLeaderExactly | backend/scheduler.py:66-73 | the next poll of another instance makes a second leader if and only if the first is overdue and no third holds the lease |
| LeaderLease.LeaderWithFailingPollsIsDoubled | backend/scheduler.py:68-72 | a reachable state with two running schedulers |
| LeaderLease.StandbyTakesOver | backend/scheduler.py:1349-1356 | after the leader stops, a standby whose polls complete sees the lease in its group, and alone leads, within the term of 30 s plus the period between its polls |
| LeaderLease.GroupTakesOver | backend/scheduler.py:1349-1356 | of any number of standbys whose polls are never further apart than a period shorter than the term, exactly the lease holder leads once the term and one period are over |
| LeaderLease.SteadyLeaderKeepsLeading | backend/scheduler.py:38-73 | a leader whose completed polls are less than 30 s apart keeps the lease and goes on leading, whatever the other instances ask |
| LeaderLease.PollExactly | backend/services/shared_state.py:266-294 | what a poll does to the lease and to the instance, answered or lost; it wins if and only if the lease is free, expired or its own, and then for 30 s |
| LeaderLease.RestartForgets | backend/scheduler.py:1349-1356 | an instance that stops does not lead, and starts again as a standby; the lease is left as it is |
| PingCycle.PingJob.UpdateLatch | backend/scheduler.py:413-435 | the streaks and the latch of the checked host, and nobody else's |
| PingCycle.PingJob.Track | backend/scheduler.py:442-454 | the offline tracking of the host, and when it is reported back |
| PingCycle.PingJob.RecordAll | backend/scheduler.py:403-454 | the first loop over all hosts |
| PingCycle.PingJob.NotifyAll | backend/scheduler.py:474-479 | the second loop: each overdue host is named once |
| PingCycle.PingJob.RunCycle | backend/scheduler.py:403-479 | a whole cycle is one step for each checked host and none for the others, with exactly the notices due |
| PingCycle.StreaksAreTrailingRuns | backend/scheduler.py:413-428 | the streaks are the lengths of the runs of failures and of passes that the counted cycles end in; never both positive; uncounted cycles leave them |
| PingCycle.LatchMovesExactly | backend/scheduler.py:283-290 | a cycle sets a clear flag if and only if the last three counted cycles failed, and clears a set one if and only if the last two passed |
| PingCycle.RowlessExactly | backend/scheduler.py:413-454 | a host whose row is gone keeps its streaks and gets no row; its tracking goes on |
| PingCycle.TransitionBudget | backend/scheduler.py:429-435 | without outside writes 3 * sets + 2 * clears never exceeds the counted cycles |
| PingCycle.OutsideResetIsUndone | backend/routers/api_v1.py:719-722 | after a reset from outside the next cycle sets the flag again if and only if it fails after two counted failures, or counts nothing after three |
| PingCycle.ResetCanBeUndone | backend/routers/api_v1.py:719-722 | a run in which a cycle that counts nothing undoes a reset |
| PingCycle.SinceIsEpisodeStart | backend/scheduler.py:442-451 | the time recorded is that of the first failed observation since the host was last seen online; only such hosts are marked notified |
| PingCycle.NoticesAreDisciplined | backend/scheduler.py:447-479 | at most one offline notice an episode, never before the grace; each back-online notice closes exactly one episode that had raised one |
| PingCycle.BackOnlineExactly | backend/scheduler.py:447-454 | the episode that a return online ends gets its back-online notice, at once or never: if and only if it had raised an offline notice and that cycle knew of a failed check before it |
| PingCycle.OfflineNoticeIsTimely | backend/scheduler.py:474-479 | an offline notice comes no earlier than the grace after the start of the episode |
| PingCycle.OfflineExactly | backend/scheduler.py:442-479 | an episode raises its offline notice at the first cycle that sees the host offline at least the grace of that cycle after the start, and at no other |
| ClusterPrimary.GroupByKind | backend/scheduler.py:125-127 | the types in order of first appearance, each with its ids in order |
| ClusterPrimary.CollectorJob.CheckConfig | backend/scheduler.py:142-267 | the row, the group and the owners after one configuration |
| ClusterPrimary.CollectorJob.RunChecks | backend/scheduler.py:125-268 | a cycle visits the configurations type by type |
| ClusterPrimary.EachConfigGetsItsRow | backend/scheduler.py:131-267 | every polled or undecryptable configuration gets exactly one row: a failure, the data, or the standby marker if and only if a lower id of its group was collected, also when the group is filled in meanwhile |
| ClusterPrimary.OnePrimaryPerGroup | backend/scheduler.py:195-224 | every group with a collected member has its data from the lowest-id one, and all the others write the standby marker |
| ClusterPrimary.RowsExactly | backend/scheduler.py:183-252 | in stored groups and cluster names: the rows of a cycle are those of the polled or undecryptable configurations, the standby marker if and only if a lower id of the same type was collected that the source puts into the same group |
| ClusterPrimary.TwoNodesOfOneCluster | backend/scheduler.py:183-224 | of two ungrouped Proxmox configurations of one cluster the lower id writes the data, if no still lower member was collected, and the other one is standby |
| ClusterPrimary.UngroupedWritesItsData | backend/scheduler.py:183-224 | a configuration without group and cluster name, or ungrouped and of another type, always writes its own data |
| ClusterPrimary.GroupsExactly | backend/scheduler.py:183-189 | after a cycle a configuration has its stored group, else the cluster name it was collected with if it is a Proxmox one, else none |
| DnsMerge.VisitHost | backend/scheduler.py:1091-1158 | one host: merged exactly if it is a duplicate, else filled in |
| DnsMerge.IndexByAddress | backend/scheduler.py:1081-1085 | the address index, over hosts that do not come from the scanner |
| DnsMerge.HostTable.ResolveHostDns | backend/scheduler.py:1070-1170 | the table after the job |
| DnsMerge.LeftExactly | backend/scheduler.py:1091-1166 | the hosts left are exactly the ones that are not duplicates, filled in |
| DnsMerge.DeletedExactly | backend/scheduler.py:1104-1114 | a host is deleted if and only if it is an IP-named scanner or manual host whose address is indexed to another |
| DnsMerge.MergedExactly | backend/scheduler.py:1081-1114 | in terms of the hosts alone: merged if and only if it is named by an address, comes from the scanner or by hand, and the last host outside the scanner with its address is another |
| DnsMerge.KeptExactly | backend/scheduler.py:1104-1158 | column by column, what a host that stays looks like: its address and its name filled in under exactly these conditions, everything else unchanged |
| DnsMerge.IndexedHostSurvives | backend/scheduler.py:1107-1110 | the host an address is indexed to is never deleted and keeps the address |
| DnsMerge.NoAddressIsLost | backend/scheduler.py:1104-1134 | every address some host stood for (the one on its record, else the one it is named by) is still some host's address |
| DnsMerge.HostnameSurvivesExactly | backend/scheduler.py:1104-1114 | the address in a hostname is borne by some host afterwards unless its host is merged for another address on its record and no host that stays has or learns it, and only then not |
| DnsMerge.RenamedHostIsLost | backend/scheduler.py:1108-1114 | a manual host renamed to another address is merged for its old one, and no host has the new one |
| DnsMerge.NoIndexedDuplicateIsLeft | backend/scheduler.py:1104-1114 | no IP-named scanner or manual host is left whose address the index gave to another |
| DiskIncident.IncidentTable.FirstLiveDisk | backend/scheduler.py:703-709 | the query finds the first live disk incident |
| DiskIncident.IncidentTable.CheckDiskSpace | backend/scheduler.py:678-738 | opens, escalates or resolves the disk incident |
| DiskIncident.IncidentTable.AcknowledgeIncident | backend/routers/api_v1.py:1340-1364 | a request during which nothing else commits acknowledges a live incident; 404 and 400 otherwise |
| DiskIncident.IncidentTable.ResolveIncident | backend/routers/api_v1.py:1368-1388 | resolves any incident; 404 otherwise |
| DiskIncident.EveryRunIsSound | backend/scheduler.py:702-738 | in any order of checks, operators, sweeps and other jobs that do not overlap, at most one disk incident is live, resolved is terminal, severity never drops, and resolved_at is set exactly on the resolved |
| DiskIncident.CheckDecidesExactly | backend/scheduler.py:678-738 | after a check a disk incident is live if and only if the usage is at the warning level, and critical at the critical level |
| DiskIncident.RowExactly | backend/scheduler.py:678-738 | column by column, what each event does to each row: severity only by a check at 90 or more, acknowledgement only of an open one, and who closes it with which time |
| DiskIncident.OpenedExactly | backend/scheduler.py:702-731 | what an event opens: a disk incident by a check at 80 or more that finds none live, with the severity of that check |
| DiskIncident.LiveDiskExactly | backend/scheduler.py:702-738 | over every run a live disk incident is critical if and only if it was before or some check found 90 or more, and acknowledged if and only if it was before or somebody did |
| DiskIncident.StaysLiveExactly | backend/scheduler.py:678-738 | without overlaps, a live disk incident is still live after a run if and only if the run held no sweep, no resolve of it, and no check below the warning level |
| DiskIncident.SweepMakesTheIncidentFlap | backend/services/correlation.py:795-881 | with the disk full throughout, every check and sweep leave one more resolved incident |
| IncidentOverlap.AcknowledgeRequest.ReadIncident | backend/routers/api_v1.py:1346-1350 | the first half of an acknowledgement: what it read, and the 404 and 400 answers |
| IncidentOverlap.AcknowledgeRequest.WriteIncident | backend/routers/api_v1.py:1352-1363 | the second half, after the request body has arrived: the status is written over whatever the row holds by then, unless it was read acknowledged |
| IncidentOverlap.SerialRunsAreAtomic | backend/routers/api_v1.py:1346-1363 | handlers of which each commits before the next reads do just what the atomic steps do |
| IncidentOverlap.OverlapKeeps | backend/scheduler.py:711-714 | under every overlap incidents stay with their rule, severity never drops, a time of resolution is never taken back, and a resolved incident has one |
| IncidentOverlap.CommitExactly | backend/routers/api_v1.py:1352-1363 | a commit writes the columns its handler changed, with values computed from what it had read, and nothing else; what it added is appended |
| IncidentOverlap.ResolvedIsFinalExactly | backend/routers/api_v1.py:1346-1363 | a resolved incident stays resolved throughout a run if and only if no acknowledgement of it that was read while it was open commits |
| IncidentOverlap.StaysLiveExactly | backend/scheduler.py:678-698 | a live disk incident stays live throughout a run if and only if no handler that read it live commits its resolution |
| IncidentOverlap.OneLiveDiskExactly | backend/scheduler.py:702-738 | at most one disk incident is live throughout a run if and only if no check that saw none commits beside a live one, and no stale acknowledgement revives one beside a live one |
| IncidentOverlap.TimesFitExactly | backend/routers/api_v1.py:1352-1380 | resolved_at is set exactly on the resolved throughout a run if and only if no stale acknowledgement takes a resolved incident back |
| IncidentOverlap.LateAcknowledgementRevives | backend/routers/api_v1.py:1346-1363 | a run in which an acknowledgement leaves two live disk incidents, one of them with a time of resolution |
| IncidentOverlap.OverlappingChecksOpenTwo | backend/scheduler.py:702-731 | a run in which two checks open two |
| DiskHistory.SettingStore.RecordDiskSample | backend/scheduler.py:578-601 | the sample is appended to what decodes, and the history trimmed |
| DiskHistory.StoredAreTheNewest | backend/scheduler.py:596-600 | trimming at every sample keeps what trimming once would |
| DiskHistory.StoredExactly | backend/scheduler.py:596-600 | what is stored are the newest 336 of the old and new samples, or all of them if there are fewer, in order; the last one recorded is the last |
| DiskHistory.FillingDiskNeverShrinks | backend/scheduler.py:578-652 | a disk that only fills is forecast from its sixth sample on, and never to shrink |
| DiskForecast.CovariationIsPairSum | backend/scheduler.py:629-638 | n*Sxy - Sx*Sy is the sum over pairs of (xi - xj)*(yi - yj) |
| DiskForecast.DenominatorSign | backend/scheduler.py:634-636 | the divisor is never negative, and zero if and only if all times coincide |
| DiskForecast.SlopeMinimisesSquaredError | backend/scheduler.py:623-638 | slope and intercept minimise the squared error over all lines, and no other line does |
| DiskForecast.CollinearSamplesGetTheirRate | backend/scheduler.py:638 | samples on a line get its rate |
| DiskForecast.SlopeIgnoresOrigin | backend/scheduler.py:625-626 | shifting the times changes neither divisor nor slope |
| DiskForecast.SlopeOfGrowingUsage | backend/scheduler.py:638 | usage that never falls has no negative slope |
| DiskForecast.ForecastPredictsExactly | backend/scheduler.py:606-645 | exactly when there is a forecast, and when it has a fill date |
| DiskForecast.ForecastExactly | backend/scheduler.py:606-652 | the forecast of readable samples in numbers: none below six, stable below the two thresholds, growth and days from the slope as a quotient of sums over pairs, rounded to three digits and one, and the trend by 7 and 30 days |
| DiskForecast.UnreadableIsIgnored | backend/scheduler.py:611-620 | a sample that does not parse might as well not have been stored |
| DiskForecast.RoundHalfEvenExactly | backend/scheduler.py:645 | rounding gives the nearest whole number, of two equally near ones the even one |
| DiskForecast.ForecastOfSteadyGrowth | backend/scheduler.py:638-652 | steady growth is forecast at its rate, with the days left and the trend, up to rounding |
| DiskForecast.ForecastIgnoresOrigin | backend/scheduler.py:611-652 | the forecast depends on the spacing of the samples, not on their absolute times, and skips unreadable ones |
| DiskForecast.ForecastOfGrowingUsage | backend/scheduler.py:638-650 | usage that never falls has no negative growth in the forecast |
| DiskForecast.RoundIsClose | backend/scheduler.py:645 | rounding moves a value by at most half a unit and keeps it nonnegative |
| Lockout.LoginGuard.RecordFailedAttempt | backend/routers/auth.py:40-46 | the user's list is pruned and extended, nobody else's changes |
| Lockout.LoginGuard.ClearFailedAttempts | backend/routers/auth.py:49-51 | the user's list is emptied, nobody else's changes |
| Lockout.LoginGuard.IsLockedOut | backend/routers/auth.py:54-59 | locked if and only if at least five positions of the stored list hold a time in the window |
| Lockout.RecentIsTheWindow | backend/routers/auth.py:44-58 | the filter keeps every time in the window as often as it occurs, and no other |
| Lockout.LoginGuard.Login | backend/routers/auth.py:161-213 | the answer and the list after one attempt, in the order of the checks |
| Lockout.PruningNeverChangesAnAnswer | backend/routers/auth.py:40-59 | over every chronological run the pruned list answers as the full failure history would, and holds at most five entries |
| Lockout.FailuresAreSpaced | backend/routers/auth.py:172-213 | in a stretch without success failure i+5 is at least 900 s after failure i |
| Lockout.AnsweredExactly | backend/routers/auth.py:161-213 | over every chronological run an attempt is let in if and only if it is not throttled, fewer than five failures since the last login lie in the 900 s before it, and its credential is an LDAP or a local success |
| Lockout.FailuresExactly | backend/routers/auth.py:172-213 | which attempts join the failure history, and which empty it |
| Cooldown.Notifier.IsRateLimited | backend/notifications.py:64-75 | the table and the decision after one call |
| Cooldown.EvictionNeverChangesADecision | backend/notifications.py:58-75 | over every chronological run a call is limited if and only if its title went out less than 300 s ago, whatever was evicted; equal titles go out at least 300 s apart |
| Cooldown.TableExactly | backend/notifications.py:64-75 | after a call the table holds exactly the titles sent within the last 600 s, each with the last time |
| WilsonBound.ResultIsBelowRate | backend/services/_stats.py:20-27 | nothing raises, and the result lies between 0 and the observed rate |
| WilsonBound.RaisesExactly | backend/services/_stats.py:20-27 | for all integers: no trials give 0; the square root raises if and only if 4*s*(s-n) > z*z*n; whatever does not raise is not negative |
| WilsonBound.ResultIsLeastAcceptedRate | backend/services/_stats.py:7-27 | the result is the least rate that the score test at z accepts |
| WilsonBound.ResultGrowsWithSuccesses | backend/services/_stats.py:20-27 | nondecreasing in the successes |
| WilsonBound.ResultGrowsWithSample | backend/services/_stats.py:8-11 | nondecreasing in the sample size at a fixed rate |
| WilsonBound.ResultOfUnanimousSample | backend/services/_stats.py:8-11 | n out of n give n / (n + z*z) |
| AutoAdd.HostTable.BuildMonitoredIndex | backend/routers/subnet_scanner.py:70-84 | the index of the monitored hosts |
| AutoAdd.HostTable.AutoAddHosts | backend/routers/subnet_scanner.py:98-139 | the hosts added and their number |
| AutoAdd.MatchFindsExactly | backend/routers/subnet_scanner.py:87-95 | a result is matched if and only if one of its keys is indexed |
| AutoAdd.IndexKeys | backend/routers/subnet_scanner.py:70-84 | the keys are exactly the stripped addresses and names of the hosts |
| AutoAdd.HostKeyExactly | backend/routers/subnet_scanner.py:74-80 | the key of a hostname is what stands between the scheme and the first slash or colon, in lower case |
| AutoAdd.NameKeyExactly | backend/routers/subnet_scanner.py:81-83 | the key of a name is the name without the blanks around it, in lower case |
| AutoAdd.LookupKeysExactly | backend/routers/subnet_scanner.py:87-95 | a result is looked up by its address, its DNS name and the first label of that, in lower case |
| AutoAdd.MatchPrefers | backend/routers/subnet_scanner.py:87-95 | the match is by the address before the name, and by the name before its first label |
| AutoAdd.NewHostExactly | backend/routers/subnet_scanner.py:119-128 | an added host has the address of the result and the first label of its DNS name, or the address if there is none, as its name |
| Text.StripExactly | backend/routers/subnet_scanner.py:74 | stripping removes the blanks around a core that neither starts nor ends with one |
| Text.DropPrefixExactly | backend/routers/subnet_scanner.py:75-77 | a prefix is dropped if it is there, and nothing else |
| Text.UpToExactly | backend/routers/subnet_scanner.py:78 | the first piece of a split is what stands before the first separator |
| Text.LowerExactly | backend/routers/subnet_scanner.py:80 | capital letters become small, every other character stays |
| AutoAdd.EveryLiveAddressIsCovered | backend/routers/subnet_scanner.py:105-135 | every live valid address ends up matched or as some host's hostname; added hosts have distinct addresses that no host had |
| AutoAdd.KnownExactly | backend/routers/subnet_scanner.py:87-103 | index and address set recognise a result if and only if some host does, by its address, bare hostname or name |
| AutoAdd.AddsNothingExactly | backend/routers/subnet_scanner.py:105-139 | a scan adds nothing if and only if every live result with a valid address is known to some host |
| AutoAdd.AddedExactly | backend/routers/subnet_scanner.py:105-133 | the hosts added are those of the live valid results that no host knows and that have no address of an earlier added result among their keys |
| AutoAdd.SecondScanAddsNothingExactly | backend/routers/subnet_scanner.py:98-139 | a condition on hosts and results alone: a second scan adds nothing if and only if no result was passed over for the raw address of an added one while none of the added hosts, as stored, knows it |
| AutoAdd.PlainNamesAreIdempotent | backend/routers/subnet_scanner.py:98-139 | so when no live result that the hosts do not know is named by the address of another such one, unless that is its own index key |
| AutoAdd.DottedDigitsAreTheirOwnKey | backend/routers/subnet_scanner.py:74-80 | IPv4 addresses are their own keys |
| AutoAdd.ColonAddressIsNotItsKey | backend/routers/subnet_scanner.py:78 | IPv6 addresses are not |
| AutoAdd.SecondScanCanAdd | backend/routers/subnet_scanner.py:98-139 | results whose second scan adds a host that the first did not |

## Left out

- Heartbeat.EveryRunDelivers: says that the server received a request, not that it stored the results, because the server answers ok even when its insert fails (backend/routers/agents.py:347-354); results pending when the process exits are lost with it.
- Heartbeat.PendingResults.PushRound: does not model the 64-bit width of the counters.
- Heartbeat.ProbeLoop.TakeTurn: leaves out the logs, the settings in a reply, the sleeping, and the counter that decides when an update is looked for (whether one is applied is an input).
- HostCheck.RunOne: takes the outcome of each network check as an input, so ping, TCP and HTTP, their timeouts and the parsing of ping output are not modelled, nor is the time stamp of a result.
- HostCheck.DetailTellsSuccessExactly: an http check whose URL the HTTP client cannot parse counts as one that can be performed, because the client's parser is not part of this model; for such hosts the shared key is harmless.
- CheckRunner.RoundAlwaysEnds: takes it that a check that runs ends at some time; the timeouts that see to it are part of the checks.
- BinarySwap.OnlyVerifiedBytes: hash and signature are arbitrary functions; nothing is proved about the cryptography, and the size cap of the download is not modelled.
- BinarySwap.LinuxExeIsAlwaysWhole: does not cover a power failure that loses data already written, because nothing is synced to disk.
- UpdateRun.RunsNeverInterleave: a sidecar that is itself restarted in the middle of a run is not modelled, nor is an exception of the runner outside its steps.
- UpdateCommands.CommandsComeInOrder: leaves out the arguments that only name files, services and revisions, and the texts of details and errors.
- Backups.PruneLeavesTheNewest: takes it that the directory can be listed and is not changed by anybody else meanwhile.
- Backups.BackupStepKeepsItsDump: assumes a strictly newest time, because dumps of equal times are kept in the order in which the directory lists them.
- LeaderLease.GroupTakesOver: times are those at which the lock computed its answers; one clock serves the lock and all instances.
- PingCycle.NoticesAreDisciplined: is about the notices the job raises, not about their delivery; streaks and tracking start empty in a fresh process.
- PingCycle.PingJob.RecordAll: maintenance windows, the fetching of hosts and the check itself are inputs; the metrics and the live updates are left out.
- ClusterPrimary.EachConfigGetsItsRow: assumes that saving a row succeeds, and leaves out bandwidth extraction and the hooks, whose failures are caught.
- DnsMerge.NoIndexedDuplicateIsLeft: is about the index built before the loop; two scanner hosts of one address remain when no other host has it, and a second pass can merge more.
- DiskIncident.EveryRunIsSound: takes the usage as an input and leaves out titles, event rows and notifications; the decision of the sweep about incidents of other rules is an input; each event reads and commits in one step, and IncidentOverlap has those that overlap.
- IncidentOverlap.OneLiveDiskExactly: a handler reads everything at one moment and all its writes land together, as its transaction commits; a handler that fails in between commits nothing.
- DiskForecast.ForecastOfSteadyGrowth: over real numbers, so floating-point rounding other than the two explicit round calls is not modelled.
- WilsonBound.ResultIsBelowRate: the square root is any function with r >= 0 and r*r == x.
- Lockout.PruningNeverChangesAnAnswer: logins are sequential, the clock never runs backwards, and a setting that does not decode is not modelled; the throttle by address and the outcome of the credential checks are inputs.
- Cooldown.EvictionNeverChangesADecision: titles are ASCII, as all text here; stripping knows blanks, tabs and line ends.
- AutoAdd.SecondScanAddsNothingExactly: assumes that the address parser refuses blanks around an address, as Python's does for addresses without a zone (scanned addresses carry none), and that stored hosts are read back as they were added.
- Overlaps other than those of incident handlers: the ping, DNS, scanner, collector and backup models read and commit in one step, so an operator's edit that commits between a job's read and its commit is an event before or after the job.
- Rate limiting (`backend/ratelimit.py`): the same argument as for the lockout, over a store shared between processes.
- Health scores, command hand-out, `should_record_use`, the de-duplication of syslog rows and the size cap of downloads: short loops and sums without a property across calls that is hard.
- Integration parsers and totals, and the Proxmox import, which is not idempotent: field copying.
- HTTP, subprocesses, databases, WebSockets, the frontend, installers other than the swap block, and metric collection.
