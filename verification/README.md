# Crash-safe update controllers

This project models the three deployment controllers of the repository and proves what they are
built for: that a process may die between any two steps, or inside a write, and a later run still
finds its way.

* The **paired-host controller** swaps an application through four slots beside an append-only
  journal. `PairedStates`, `PairedJournalText` and `TornTail` model the journal's text and the
  recogniser of torn tails, `PairedJournal` the journal object over the file's bytes, and
  `PairedUpdate` the update and the rollback.
* The **diagnostic-driver controller** swaps a driver beside two durable images, a journal that is
  published by pending snapshot and rename and a root state image, and brackets a Core Audio
  restart with a journalled intent. `DriverStates` has the transitions and the recovery matrix,
  `DriverJournalText`, `DriverSnapshot` and `DriverJournal` the journal, `RootState` the second
  image's text, `DriverDisk` and `DriverUpdate` the transaction, `DriverRuns` what holds over whole
  runs, `DriverTexts` how the transaction's records stand in the bytes of the journal, and
  `DriverWitnesses` the runs behind the failures listed below. `JsonGrammar`, `JsonAhead` and `Json`
  are the bounded JSON parser that validates the driver's reports.
* The **resume stager** publishes six root files one after the other and then hands control to a
  privileged controller at most once. `StageClassifier` models how it reads a listing,
  `ResumeStager` the staging and the dispatch. The controller it dispatches is the sealed second
  version of the driver controller; the transaction modelled here is the first version, which has
  the same states.

`ProcessStart` is the check of a process start that the root state image and the live host share.
`Text` and `Faults` hold what the others share.

## How the model works

A byte is the `char` with its code, and a file is a `string`. Every text that the journal parsers
accept is plain ASCII, so the separate UTF-8 step is not modelled.

A controller is a class whose `disk` outlives the process. A run is given a list of fates, one for
every point at which the world has a say. At each point the process goes on, sees an error, or
dies, and the effect of the point is durable or not. A list that has ended means that nothing more
goes wrong. Every method that makes something durable requires the invariant of the state after
it, so an invariant that holds is one that holds at every possible crash. Files that are written
through a pending name are cut at an arbitrary byte.

In the driver controller a run is also given a list of outside restarts of `coreaudiod`. A start is
a run count, and the pid of each start is an arbitrary function of it, so pids may be reused unless
a statement says otherwise. The journal of the transaction machine is a sequence of records
together with what is left of a pending snapshot; `DriverTexts` connects that to the bytes of the
journal file, fields included: `RecordIsAMachineStep` for writing, `ReadIntent` for reading back.

Checks of the operating system that read and change nothing (signatures, metadata, process tables,
launchd, routes, pairing data) are checkpoints that may fail. Several in a row are one checkpoint.
Hashes are identity of contents. A ghost `process` says whether the process is still alive, and how
many proofs it has passed: no point can be taken by a dead one, and `Lives` states for every step
whether it has died there and how many proofs it takes to be done. The ghost `proved` is the world as
it was last proved: the paired-host updater moves an app or changes the host only in a world that it
has proved since, and both controllers make the records that claim a result only of a world they have
just proved; the stager hands over control only once it has verified the complete stage.

## What turned out not to hold

* A journal snapshot that is cut at an earlier line end, with at least one record left, is refused
  by every later run. `DriverSnapshot.CutSnapshot` says exactly when, `DriverJournal.StuckCutIff` that
  such a cut is there to be met from the second record on, and `DriverWitnesses.StuckRecord` shows one.
* Recovery is left without a plan exactly when the journal is one record, not of a failure, past a
  pair that a rollback was resumed from while the state image lagged (`DriverRuns.RejectionIsExact`,
  for any number of cuts). One cut in each phase never gets there (`DriverRuns.OneCutPerPhase`), nor
  do any number of recoveries none of which finds a lagging image (`DriverRuns.AnyRuns`). The image
  lags, as `DriverStates.Lags` lists, when the run before was cut between a record and its image, and
  can be checked before recovery starts. From every such pair one more cut suffices, as long as the
  journal is not stuck and Core Audio can be read where that comes first
  (`DriverWitnesses.CutAgain`); `DriverWitnesses.SecondCut` goes there step by step from a new
  transaction.
* A rollback that failed past its reload intent cannot complete, because the second intent makes
  the record ambiguous. `DriverUpdate.Machine.Rollback` and `Recover` state exactly when an undisturbed
  run completes, and `DriverWitnesses.RepeatedIntent` reaches a disk where none can.
* A paired-host update that is cut inside the copy into the install hold leaves a torn copy, and no
  rollback gets past it. `PairedUpdate.Campaign` states convergence exactly for the other runs, with
  the condition on the fates of the update itself; `PairedUpdate.DieInsideCopy` is one such list.
* The writer of the root state image lets route identifiers through that its parser refuses or
  changes. `RootState.PrintedReads` states what comes back for every route and
  `RootState.WriterAcceptsIff` what the writer lets through; `EmptyUidIsLost`, `LineEndUidIsLost` and
  `CarriageReturnIsDropped` are three images.

## Model

| member | source | states |
|---|---|---|
| `PairedStates.ParseTokenIff` | macOS/scripts/opensteamer-host-paired-v2-update-controller.rs:92-137 | a state token parses to a state exactly when it is that state's own token |
| `PairedStates.HistoryTheorem` | macOS/scripts/opensteamer-host-paired-v2-update-controller.rs:1744-1785 | a legal history of any length stands on the way forward exactly when it is that way, walked state by state; otherwise it turns back past the stop intent and never goes forward again; ROLLED_BACK comes last, behind CURRENT_RESTORED and CURRENT_BOOTSTRAPPED |
| `PairedJournalText.ParseJournal` | macOS/scripts/opensteamer-host-paired-v2-update-controller.rs:1659-1705 | the one-pass parser gives the last record's state, or refuses, exactly as the declarative acceptance of the whole text says |
| `PairedJournalText.AcceptedIffLegalHistory` | macOS/scripts/opensteamer-host-paired-v2-update-controller.rs:1659-1785 | a text is accepted in a state exactly when its lines are the header and the well-formed records of a legal history ending there, for any length |
| `PairedJournalText.RecordParses` | macOS/scripts/opensteamer-host-paired-v2-update-controller.rs:205-236 | a printed record with safe values reads back to its own state |
| `PairedJournalText.ParseRecordIff` | macOS/scripts/opensteamer-host-paired-v2-update-controller.rs:1664-1702 | a line is read as a record of a state exactly when it is one that is written for that state with safe values |
| `PairedJournalText.AppendRecord` | macOS/scripts/opensteamer-host-paired-v2-update-controller.rs:205-236 | appending a record moves an accepted journal to the recorded state exactly when that transition is allowed, and makes it unacceptable otherwise |
| `TornTail.RecordPrefixExact` | macOS/scripts/opensteamer-host-paired-v2-update-controller.rs:1821-1857 | the prefix recogniser for one state accepts exactly the non-empty proper prefixes of some record line of that state |
| `TornTail.TornTailExact` | macOS/scripts/opensteamer-host-paired-v2-update-controller.rs:1807-1819 | for every prior state, a tail of at most 4096 bytes is plausible exactly when it is a non-empty proper prefix of some record line allowed next |
| `PairedJournal.CrashedAppendRecovers` | macOS/scripts/opensteamer-host-paired-v2-update-controller.rs:170-236 | an append cut after any number of bytes leaves a file that a new process opens in the old state, or in the new one when nothing is missing |
| `PairedJournal.Journal.Create` | macOS/scripts/opensteamer-host-paired-v2-update-controller.rs:147-168 | a creation succeeds exactly when it is not cut, and its journal is then healthy and parses to BEGUN; what a cut one leaves is refused by every later run, unless all of it got there |
| `PairedJournal.Journal.Open` | macOS/scripts/opensteamer-host-paired-v2-update-controller.rs:170-203 | opening succeeds exactly when the complete lines are a journal with a plausible torn tail behind them whose truncation, if there is a tail, goes through; it adopts the state before the tail and drops only the tail |
| `PairedJournal.Journal.Record` | macOS/scripts/opensteamer-host-paired-v2-update-controller.rs:205-249 | a refused record writes nothing, and costs the journal its health exactly when the file is no longer its own; an attempted one leaves the bytes, the memory and the health that its fate says; while healthy the bytes parse to the state in memory; a failure restores or poisons; what a new process recovers is the recorded state or the one before |
| `PairedJournal.Journal.RestoreAfterFailedAppend` | macOS/scripts/opensteamer-host-paired-v2-update-controller.rs:251-272 | the journal becomes healthy again exactly when the file is back to its old length and parses to the state in memory |
| `PairedJournal.AppendIsRecovered` | macOS/scripts/opensteamer-host-paired-v2-update-controller.rs:205-272 | every fate of an append amounts to one landed-or-not step for the next process |
| `PairedJournal.UpdateIsRecordable` | macOS/scripts/opensteamer-host-paired-v2-update-controller.rs:595-716 | what the updater hands to the journal in each state passes the journal's own checks, key for key |
| `PairedUpdate.ConservedCounts` | macOS/scripts/opensteamer-host-paired-v2-update-controller.rs:588-877 | the baseline app is in exactly one slot and the replacement in at most one |
| `PairedUpdate.RestoredMeans` | macOS/scripts/opensteamer-host-paired-v2-update-controller.rs:754-877 | the end of a rollback has the baseline at the canonical path, an empty rollback slot, and the replacement, if it was ever copied, in exactly one of the two archives; rolling back again changes nothing |
| `PairedUpdate.Machine.Change` | macOS/scripts/opensteamer-host-paired-v2-update-controller.rs:588-726 | a durable step may land although the process sees a failure, and the invariant holds on both sides of it |
| `PairedUpdate.Machine.Move` | macOS/scripts/opensteamer-host-paired-v2-update-controller.rs:677-692 | an exclusive rename moves one app between slots or nothing at all, and touches the canonical path only while the host is down |
| `PairedUpdate.Machine.Record` | macOS/scripts/opensteamer-host-paired-v2-update-controller.rs:205-236 | a record is durable exactly as its fate says, and only an append that could be taken back leaves the journal usable |
| `PairedUpdate.Machine.PrepareInstallHold` | macOS/scripts/opensteamer-host-paired-v2-update-controller.rs:1056-1086 | the install hold is created, filled by a copy that may be cut short, and only then trusted; it is left torn exactly when the copy begins and does not end |
| `PairedUpdate.Machine.PerformUpdate` | macOS/scripts/opensteamer-host-paired-v2-update-controller.rs:588-726 | success means committed with the replacement canonical and running, the baseline retained, nothing else in place and twelve proofs passed; any stop leaves a consistent disk with exactly the forward records on it; undisturbed it commits |
| `PairedUpdate.BootstrappedRuns` | macOS/scripts/opensteamer-host-paired-v2-update-controller.rs:697-726 | from PERSISTENT_BOOTSTRAPPED to COMMITTED every consistent disk has the host running, the replacement canonical and the baseline in the rollback slot; committed, it is one single disk |
| `PairedUpdate.Machine.RollbackToCurrentBaseline` | macOS/scripts/opensteamer-host-paired-v2-update-controller.rs:754-877 | a rollback never changes where a complete rollback would end, and one that goes through ends there |
| `PairedUpdate.Machine.ArchiveInstallHold` | macOS/scripts/opensteamer-host-paired-v2-update-controller.rs:1088-1109 | an install hold that is still there is archived, and a torn one is refused |
| `PairedUpdate.Machine.Execute` | macOS/scripts/opensteamer-host-paired-v2-update-controller.rs:493-586 | success leaves one single disk: committed, the replacement canonical and running, the baseline retained; an error before the pointer is published leaves the baseline untouched; a single error after it is rolled back on the spot, unless the journal is poisoned or the install hold torn; the hold is left torn exactly when the run is cut inside its copy; undisturbed it commits |
| `PairedUpdate.Machine.RollBackFailedUpdate` | macOS/scripts/opensteamer-host-paired-v2-update-controller.rs:558-583 | an update that crossed the stop is rolled back or left to a later rollback; undisturbed and with a healthy journal the baseline is back, or, exactly when the hold is torn, a critical failure is on record and the host stays down |
| `PairedUpdate.Machine.RollbackExisting` | macOS/scripts/opensteamer-host-paired-v2-update-controller.rs:728-752 | a later rollback command starts from whatever is on disk |
| `PairedUpdate.Campaign` | macOS/scripts/opensteamer-host-paired-v2-update-controller.rs:588-877 | cut the update anywhere after the pointer is published, then any number of rollbacks anywhere: one further uninterrupted rollback reaches the restored disk exactly when the install hold was not torn, which is exactly when the update was not cut inside its copy |
| `PairedUpdate.TornIsNotRolledBack` | macOS/scripts/opensteamer-host-paired-v2-update-controller.rs:1088-1109 | a torn install hold is never rolled back, so the condition of the campaign is needed |
| `PairedUpdate.DieInsideCopy` | macOS/scripts/opensteamer-host-paired-v2-update-controller.rs:1056-1086 | one list of fates for the update command: it dies inside the copy, the pointer is published, and no rollbacks after it, however many, reach ROLLED_BACK |
| `DriverStates.ParseTokenIff` | macOS/scripts/opensteamer-diagnostic-driver-v1-update-controller.rs:311-362 | a state token parses to a state exactly when it is that state's own token |
| `DriverStates.HistoryTheorem` | macOS/scripts/opensteamer-diagnostic-driver-v1-update-controller.rs:3116-3164 | a legal history of any length ends in COMMITTED exactly when it is the eleven forward states, in ROLLED_BACK exactly when it ends with the unbroken five-state restore tail, and nothing follows a terminal state |
| `DriverStates.PlanMeaning` | macOS/scripts/opensteamer-diagnostic-driver-v1-update-controller.rs:4988-5052 | the guard of recovery: it rejects exactly the incoherent pairs and those where nothing was authorised, and resumes a rollback only from a coherent pair past the stop intent |
| `DriverStates.LagsIff` | macOS/scripts/opensteamer-diagnostic-driver-v1-update-controller.rs:4988-5052 | a record that a rollback adds to a pair it resumed leaves recovery without a plan exactly when the state image lagged and the record is not of a failure |
| `DriverJournalText.ParseFields` | macOS/scripts/opensteamer-diagnostic-driver-v1-update-controller.rs:3268-3281 | the field loop of one record refuses empty and repeated fields and keeps the rest |
| `DriverJournalText.ParseJournal` | macOS/scripts/opensteamer-diagnostic-driver-v1-update-controller.rs:3248-3297 | the one-pass parser gives the last record's state, or refuses, exactly as the declarative acceptance of the whole text says |
| `DriverJournalText.AcceptedIffLegalHistory` | macOS/scripts/opensteamer-diagnostic-driver-v1-update-controller.rs:3248-3297 | a text is accepted in a state exactly when it ends with a line end and its lines are the header and the records of a legal history ending there |
| `DriverJournalText.CommittedJournal` | macOS/scripts/opensteamer-diagnostic-driver-v1-update-controller.rs:3248-3297 | every accepted committed journal records exactly the eleven forward states |
| `DriverJournalText.RolledBackJournal` | macOS/scripts/opensteamer-diagnostic-driver-v1-update-controller.rs:3248-3297 | every accepted rolled-back journal ends with the whole restore sequence, after any number of failures before it |
| `DriverSnapshot.PrintRecord` | macOS/scripts/opensteamer-diagnostic-driver-v1-update-controller.rs:3390-3397 | the printing loop produces the record line of the state and fields |
| `DriverSnapshot.RecordReadsBack` | macOS/scripts/opensteamer-diagnostic-driver-v1-update-controller.rs:3359-3408 | a printed record parses back to exactly its state and fields and keeps to one line |
| `DriverSnapshot.ParseRecordIff` | macOS/scripts/opensteamer-diagnostic-driver-v1-update-controller.rs:3256-3292 | a line is read as a record of a state with its fields exactly when its words are those that are written for it: nothing else is accepted, whatever the spaces between the words |
| `DriverSnapshot.AppendText` | macOS/scripts/opensteamer-diagnostic-driver-v1-update-controller.rs:3403-3408 | one more line keeps a journal acceptable exactly when it holds a record allowed next |
| `DriverSnapshot.ClassifyMeaning` | macOS/scripts/opensteamer-diagnostic-driver-v1-update-controller.rs:3305-3330 | over arbitrary pending texts: promotion exactly for an accepted text with one more line, discarding exactly for the canonical text or an unacceptable one |
| `DriverSnapshot.CutSnapshot` | macOS/scripts/opensteamer-diagnostic-driver-v1-update-controller.rs:3305-3330 | over every byte prefix of a snapshot: the whole is promoted, a cut at an earlier line end that keeps a record is refused, every other cut is discarded |
| `DriverJournal.ReconciledMeans` | macOS/scripts/opensteamer-diagnostic-driver-v1-update-controller.rs:3434-3520 | reconciling commits to the state previewed before it, which is the canonical one or one valid successor, only ever extends the journal, and leaves nothing to reconcile |
| `DriverJournal.Journal.Create` | macOS/scripts/opensteamer-diagnostic-driver-v1-update-controller.rs:3333-3349 | a creation cut short leaves a text every later run refuses, unless nothing is missing |
| `DriverJournal.FreshCut` | macOS/scripts/opensteamer-diagnostic-driver-v1-update-controller.rs:3333-3349 | of all prefixes of a new journal only the whole one is a journal |
| `DriverJournal.Journal.Open` | macOS/scripts/opensteamer-diagnostic-driver-v1-update-controller.rs:3558-3586 | opening adopts the canonical state, is refused exactly for an unreadable journal or an oversized pending file, and changes nothing |
| `DriverJournal.Journal.Reconcile` | macOS/scripts/opensteamer-diagnostic-driver-v1-update-controller.rs:3434-3484 | the effective state and text are the same before and after, whatever fault strikes; a fault that comes first leaves the files as they are, and one that comes later finds them reconciled; success leaves no pending file and the effective state in memory; a journal without one is refused unchanged |
| `DriverJournal.Journal.Record` | macOS/scripts/opensteamer-diagnostic-driver-v1-update-controller.rs:3351-3432 | wherever publication is cut, the journal text a later run works on is the one before or the one with the new record, except behind a cut at an earlier line end; success leaves exactly the old text and the new record |
| `DriverJournal.StuckCutIff` | macOS/scripts/opensteamer-diagnostic-driver-v1-update-controller.rs:3305-3330 | a cut that nobody gets past is there to be met exactly when the journal holds more than one record |
| `DriverWitnesses.StuckRecord` | macOS/scripts/opensteamer-diagnostic-driver-v1-update-controller.rs:3351-3432 | a journal of two records whose third is cut in the pending snapshot behind the first one, and which every run refuses from then on |
| `DriverJournal.Journal.ExactFields` | macOS/scripts/opensteamer-diagnostic-driver-v1-update-controller.rs:3522-3556 | fields are recovered exactly when the journal is in the state in memory and holds one record of the target, and they are that record's fields |
| `DriverJournal.RecordedFieldsAreFound` | macOS/scripts/opensteamer-diagnostic-driver-v1-update-controller.rs:3522-3556 | fields recorded for a state that was not there yet are the ones read back later |
| `RootState.RoundTrip` | macOS/scripts/opensteamer-diagnostic-driver-v1-update-controller.rs:4672-4986 | the parser gives back what the writer built, for every state, generation, route and reserve, exactly when the values meet the parser's checks, that of the process start being the one of ProcessStart.ValidIff |
| `RootState.ParsedIsValid` | macOS/scripts/opensteamer-diagnostic-driver-v1-update-controller.rs:4827-4986 | everything the parser accepts has a canonical generation, clean route identifiers and a positive reserve identity, its process start being one that ProcessStart.ValidIff describes |
| `RootState.ParseText` | macOS/scripts/opensteamer-diagnostic-driver-v1-update-controller.rs:4827-4986 | the one-pass parser refuses repeated keys and lines without a separator and otherwise builds the image |
| `ProcessStart.ValidIff` | macOS/scripts/opensteamer-diagnostic-driver-v1-update-controller.rs:1715-1765 | a process start is accepted exactly when it is printed from a weekday, a month, a day up to 31, an hour up to 23, a minute up to 59, a second up to 60 and a year from 2020 to 9999 |
| `RootState.WriterAcceptsIff` | macOS/scripts/opensteamer-diagnostic-driver-v1-update-controller.rs:4678-4694 | for every route, identifiers with line ends inside included: the writer lets an identifier through exactly when nothing up to its first line end is whitespace and every later piece either has no field or a field value without whitespace |
| `RootState.PrintedReads` | macOS/scripts/opensteamer-diagnostic-driver-v1-update-controller.rs:4672-4986 | what a later run reads of any published image: the route without its trailing carriage returns, and nothing at all when an identifier is empty, or holds whitespace or a line end |
| `RootState.AcceptedAndRead` | macOS/scripts/opensteamer-diagnostic-driver-v1-update-controller.rs:4678-4986 | of the images the writer lets through, exactly those are read back whose identifiers have no line end inside and are not empty |
| `RootState.LineEndIsLost` | macOS/scripts/opensteamer-diagnostic-driver-v1-update-controller.rs:4827-4986 | an image whose route has a line end inside is never read back, whatever the pieces look like |
| `RootState.EmptyUidIsLost` | macOS/scripts/opensteamer-diagnostic-driver-v1-update-controller.rs:4678-4986 | an image with an empty input identifier is written, and no later run can read it |
| `RootState.LineEndUidIsLost` | macOS/scripts/opensteamer-diagnostic-driver-v1-update-controller.rs:4678-4986 | an image with a line end inside an identifier is written, and no later run can read it |
| `RootState.CarriageReturnIsDropped` | macOS/scripts/opensteamer-diagnostic-driver-v1-update-controller.rs:4678-4986 | an image whose last identifier ends with a carriage return is written and comes back without it |
| `Text.CanonicalPositiveIff` | macOS/scripts/opensteamer-diagnostic-driver-v1-update-controller.rs:3166-3176 | a number is accepted exactly when it is positive, in range and spelled canonically |
| `DriverDisk.SlotInvariant` | macOS/scripts/opensteamer-diagnostic-driver-v1-update-controller.rs:6004-6046 | in every journal state V7 is in exactly one of its two slots and the candidate in exactly one of its three, never both canonical |
| `DriverDisk.RestoredMeans` | macOS/scripts/opensteamer-diagnostic-driver-v1-update-controller.rs:7266-7331 | the restore section ends with V7 canonical and doing it again changes nothing |
| `DriverDisk.AppendIsConsistent` | macOS/scripts/opensteamer-diagnostic-driver-v1-update-controller.rs:7188-7424 | a record that agrees with the slots, the image and the restart account keeps the whole invariant |
| `DriverDisk.MayReterm` | macOS/scripts/opensteamer-diagnostic-driver-v1-update-controller.rs:7350-7372 | a rollback may send its TERM only while the daemon is the one its only intent names, and therefore never a second time |
| `DriverUpdate.Machine.constructor` | macOS/scripts/opensteamer-diagnostic-driver-v1-update-controller.rs:7496-7524 | a new transaction starts in BEGUN with the invariant in force |
| `DriverUpdate.Machine.Open` | macOS/scripts/opensteamer-diagnostic-driver-v1-update-controller.rs:3558-3586 | a new process believes in the published journal |
| `DriverUpdate.Machine.Move` | macOS/scripts/opensteamer-diagnostic-driver-v1-update-controller.rs:4298-4310 | an exclusive rename moves one driver between slots or nothing at all, and only while the host is down |
| `DriverUpdate.Machine.WriteImage` | macOS/scripts/opensteamer-diagnostic-driver-v1-update-controller.rs:4672-4760 | the root state image is replaced as a whole or not at all |
| `DriverUpdate.Machine.Reconcile` | macOS/scripts/opensteamer-diagnostic-driver-v1-update-controller.rs:3434-3484 | the effective journal survives, and a stuck one is refused |
| `DriverUpdate.Machine.Record` | macOS/scripts/opensteamer-diagnostic-driver-v1-update-controller.rs:3351-3432 | a record is effective or not whatever stops it, and only an allowed transition can be |
| `DriverUpdate.Machine.Authenticate` | macOS/scripts/opensteamer-diagnostic-driver-v1-update-controller.rs:7502-7549 | the run reaches AUTHENTICATED with the live Core Audio generation as its baseline |
| `DriverUpdate.Machine.IntendStop` | macOS/scripts/opensteamer-diagnostic-driver-v1-update-controller.rs:7551-7590 | the state image goes ahead of the journal to the stop intent, with Core Audio still at the baseline |
| `DriverUpdate.Machine.RetainPrior` | macOS/scripts/opensteamer-diagnostic-driver-v1-update-controller.rs:6004-6034 | V7 is set aside before it is recorded as retained |
| `DriverUpdate.Machine.PublishCandidate` | macOS/scripts/opensteamer-diagnostic-driver-v1-update-controller.rs:6035-6046 | the candidate takes the canonical path while V7 stays retained |
| `DriverUpdate.Machine.AwaitSuccessor` | macOS/scripts/opensteamer-diagnostic-driver-v1-update-controller.rs:2797-2824 | the loop behind the TERM ends well only with the exact successor, seen by two looks with no outside restart between them; undisturbed it does so exactly when the running daemon is readable and is that successor and, after at most as many failing looks as patience allows, two looks in a row go through |
| `DriverUpdate.Machine.Look` | macOS/scripts/opensteamer-diagnostic-driver-v1-update-controller.rs:2798-2822 | one turn of that loop: the second look of a daemon that is found must find the same one, and a daemon that was restarted more than once is not waited for any longer |
| `DriverUpdate.Machine.ReloadCoreAudio` | macOS/scripts/opensteamer-diagnostic-driver-v1-update-controller.rs:2770-2825 | a reload that succeeds was one TERM of the expected generation followed by its exact successor; it is refused while the host is up; without outside restarts it succeeds exactly when the next start can be read and told from this one, the check and the TERM go through and the successor is seen in time |
| `DriverUpdate.Machine.ArchiveFailed` | macOS/scripts/opensteamer-diagnostic-driver-v1-update-controller.rs:7266-7307 | the candidate leaves the canonical path, from every arrangement |
| `DriverUpdate.Machine.RestorePrior` | macOS/scripts/opensteamer-diagnostic-driver-v1-update-controller.rs:7309-7331 | V7 returns to the canonical path before that is recorded |
| `DriverUpdate.Machine.StopAndRestore` | macOS/scripts/opensteamer-diagnostic-driver-v1-update-controller.rs:7264-7331 | the restore section is total, always leads to the same arrangement, and never loses a driver when it is cut |
| `DriverUpdate.Machine.IntendReload` | macOS/scripts/opensteamer-diagnostic-driver-v1-update-controller.rs:7333-7348 | the generation about to be ended is journalled before anything is sent |
| `DriverUpdate.Machine.ReloadBack` | macOS/scripts/opensteamer-diagnostic-driver-v1-update-controller.rs:7350-7387 | the reload record is written only with the exact successor of the journalled intent; undisturbed, exactly when the intent is unique and can still be met |
| `DriverUpdate.Machine.BringRestart` | macOS/scripts/opensteamer-diagnostic-driver-v1-update-controller.rs:7363-7372 | the restart the intent asks for is ordered now or found to have happened exactly once, and nothing else is taken for it |
| `DriverUpdate.Machine.JournalRollbackFailure` | macOS/scripts/opensteamer-diagnostic-driver-v1-update-controller.rs:6823-6863 | a failure image is only written behind its journal record, nothing else changes, and undisturbed both are written |
| `DriverUpdate.Machine.Rollback` | macOS/scripts/opensteamer-diagnostic-driver-v1-update-controller.rs:7188-7424 | every cut keeps the slots on the way to the same restored arrangement; success is ROLLED_BACK in both images; undisturbed it completes exactly under a condition on the disk before it, and one that was entered and does not complete leaves CRITICAL_FAILURE in both images |
| `DriverUpdate.Machine.RunRollback` | macOS/scripts/opensteamer-diagnostic-driver-v1-update-controller.rs:7219-7424 | an undisturbed rollback that does not get through leaves CRITICAL_FAILURE in the journal and in the image, unless the state refuses a rollback altogether |
| `DriverUpdate.Machine.RollBackAtOnce` | macOS/scripts/opensteamer-diagnostic-driver-v1-update-controller.rs:7686-7726 | what the forward run does with its error: undisturbed, it ends in ROLLED_BACK in both images when the next Core Audio start can be told from this one, unless the commit was on record or the pending snapshot is stuck |
| `DriverUpdate.Machine.Perform` | macOS/scripts/opensteamer-diagnostic-driver-v1-update-controller.rs:7496-7726 | success is COMMITTED in both images with the candidate canonical, V7 retained and eleven proofs passed; an error without a rollback leaves the host up and the journal no further than the stop intent; a single error behind it is rolled back on the spot to ROLLED_BACK in both images, unless the commit was on record or the pending snapshot is stuck; undisturbed it commits |
| `DriverUpdate.Machine.FinalizePrestop` | macOS/scripts/opensteamer-diagnostic-driver-v1-update-controller.rs:6923-7003 | before the stop intent recovery only records the abort and leaves the drivers alone |
| `DriverUpdate.Machine.RepairTerminal` | macOS/scripts/opensteamer-diagnostic-driver-v1-update-controller.rs:7005-7114 | a terminal journal gets its missing image and nothing else changes |
| `DriverUpdate.Machine.Recover` | macOS/scripts/opensteamer-diagnostic-driver-v1-update-controller.rs:8013-8115 | recovery acts on the plan for the previewed journal and the image; a rejected pair is left alone, and one only comes about by resuming a rollback with a lagging image; success is a terminal state in both images; undisturbed it succeeds exactly when the plan can be carried out, and otherwise leaves CRITICAL_FAILURE in both images, unless it had no plan or the journal is stuck |
| `DriverUpdate.CompletesOnceEntered` | macOS/scripts/opensteamer-diagnostic-driver-v1-update-controller.rs:7194-7218 | the opening of a rollback does not change whether it can complete |
| `DriverRuns.DriversAreSafe` | macOS/scripts/opensteamer-diagnostic-driver-v1-update-controller.rs:7188-7684 | after any number of cut runs each driver is in exactly one slot, the journal tells which, and terminal states have the host up and the full history behind them |
| `DriverRuns.RejectionIsExact` | macOS/scripts/opensteamer-diagnostic-driver-v1-update-controller.rs:6885-6911 | after any number of cut recoveries a pair is rejected exactly when the journal is one record, not of a failure, past a pair that was resumed with a lagging image; that takes a second entry into the rollback |
| `DriverWitnesses.CutAgain` | macOS/scripts/opensteamer-diagnostic-driver-v1-update-controller.rs:7188-7424 | the condition is exact: from every pair that is resumed with a lagging image, if the journal is not stuck and a generation that must be journalled can be read, one more cut leaves a rejected one |
| `DriverWitnesses.SecondCut` | macOS/scripts/opensteamer-diagnostic-driver-v1-update-controller.rs:7188-7424 | from a new transaction, step by step: the second of two cut recoveries leaves a rejected pair |
| `DriverWitnesses.RepeatedIntent` | macOS/scripts/opensteamer-diagnostic-driver-v1-update-controller.rs:7333-7362 | from a new transaction, step by step: the reload intent is journalled twice, after which recovery resumes the rollback and cannot complete it |
| `DriverRuns.RestartsAreExact` | macOS/scripts/opensteamer-diagnostic-driver-v1-update-controller.rs:7333-7387 | every rollback reload on record is the exact successor of the generation journalled just before it, and the transaction itself restarts coreaudiod at most twice over all runs |
| `DriverRuns.TerminalRestarts` | macOS/scripts/opensteamer-diagnostic-driver-v2-resume-stager.rs:4954-4971 | without outside restarts every terminal state passes the stager's Core Audio check: one restart behind a commit, one or two behind a rollback, none behind an abort |
| `DriverRuns.OutsideRestartIsNoticed` | macOS/scripts/opensteamer-diagnostic-driver-v2-resume-stager.rs:4954-4971 | that check fails once something else restarted the daemon behind a commit or an abort, or three times behind a rollback |
| `DriverRuns.RetainedIsSuccessor` | macOS/scripts/opensteamer-diagnostic-driver-v2-resume-stager.rs:4985-5006 | what a later run accepts of a finished transaction's Core Audio is exactly what the dispatching run accepted |
| `DriverRuns.AnyRuns` | macOS/scripts/opensteamer-diagnostic-driver-v1-update-controller.rs:7496-8115 | after a forward run and any number of recoveries, each cut anywhere and disturbed at will: the drivers are safe, every recorded restart is exact, rejection is exact and does not occur while no rollback is resumed with a lagging image, and an undisturbed terminal state passes the stager's Core Audio check |
| `DriverRuns.OneCutPerPhase` | macOS/scripts/opensteamer-diagnostic-driver-v1-update-controller.rs:6885-6911 | after one cut in each phase recovery has a plan, and an undisturbed recovery reaches a terminal state exactly when that plan is not a rollback that cannot complete |
| `DriverTexts.RecordIsAMachineStep` | macOS/scripts/opensteamer-diagnostic-driver-v1-update-controller.rs:3351-3432 | however a record's publication goes, the journal file and the transaction's disk agree before and after it, fields included, or both are stuck |
| `DriverTexts.RecordTogether` | macOS/scripts/opensteamer-diagnostic-driver-v1-update-controller.rs:3351-3432 | the journal object and the transaction machine take the record step together and go on agreeing |
| `DriverTexts.AppendDescribes` | macOS/scripts/opensteamer-diagnostic-driver-v1-update-controller.rs:3351-3432 | a journal text that tells the typed records tells them with the new one once its line is appended |
| `DriverTexts.EntryIsRecordable` | macOS/scripts/opensteamer-diagnostic-driver-v1-update-controller.rs:6028-7680 | what the transaction hands to the root journal in each state passes the journal's own checks, key for key, and its fields say which generations were read |
| `DriverTexts.UserRecordIsRecordable` | macOS/scripts/opensteamer-diagnostic-driver-v1-update-controller.rs:7818-7826 | the same for the journal of the user's side |
| `DriverTexts.OnlyRecordIsExactIntent` | macOS/scripts/opensteamer-diagnostic-driver-v1-update-controller.rs:3522-3556 | the journal text has one record of the reload intent exactly when the typed records have one intent |
| `DriverTexts.ReadIntent` | macOS/scripts/opensteamer-diagnostic-driver-v1-update-controller.rs:7350-7362 | the fields of the intent record, found and parsed as the rollback does, give back exactly the journalled generation, and nothing when the intent is missing or repeated |
| `DriverTexts.RecordedRestartsAreExact` | macOS/scripts/opensteamer-diagnostic-driver-v1-update-controller.rs:7333-7387 | in the journal text a reload record follows its intent record, repeats its old pid, names another new pid, and counts exactly one run more |
| `StageClassifier.ClassifyIff` | macOS/scripts/opensteamer-diagnostic-driver-v2-resume-stager.rs:2106-2244 | over arbitrary lists of names the classifier accepts a prefix exactly when the two listings are, without duplicates, those of that prefix, with an abort result only beside a complete stage |
| `StageClassifier.OrderIsIrrelevant` | macOS/scripts/opensteamer-diagnostic-driver-v2-resume-stager.rs:2106-2244 | the order of the listings makes no difference |
| `StageClassifier.ClassifyStage` | macOS/scripts/opensteamer-diagnostic-driver-v2-resume-stager.rs:2250-2453 | the second classification, with its counters, agrees with the first exactly when every listed file passes its check, and refuses otherwise |
| `ResumeStager.EveryCutIsAccepted` | macOS/scripts/opensteamer-diagnostic-driver-v2-resume-stager.rs:2032-2244 | every disk a cut staging run can leave is accepted, in whatever order it is listed, and classified as how far the run got |
| `ResumeStager.Stager.StreamPending` | macOS/scripts/opensteamer-diagnostic-driver-v2-resume-stager.rs:2658-2666 | a cut stream leaves a prefix of the expected bytes |
| `ResumeStager.Stager.PublishPending` | macOS/scripts/opensteamer-diagnostic-driver-v2-resume-stager.rs:2688-2701 | publication never replaces a published file |
| `ResumeStager.Stager.StreamOnce` | macOS/scripts/opensteamer-diagnostic-driver-v2-resume-stager.rs:2639-2703 | published files stay byte for byte, the prefix does not shrink, and the file is published from wherever an earlier run stopped |
| `ResumeStager.Stager.VerifyStage` | macOS/scripts/opensteamer-diagnostic-driver-v2-resume-stager.rs:2547-2609 | the stage is read off exactly, whatever order the directories are listed in |
| `ResumeStager.Stager.Stage` | macOS/scripts/opensteamer-diagnostic-driver-v2-resume-stager.rs:2730-2761 | one uninterrupted pass completes the stage from every cut and leaves the dispatch intent alone; success takes fifteen proofs, the stage verified before the first file, behind each and at the end among them |
| `ResumeStager.Stager.ClassifyState` | macOS/scripts/opensteamer-diagnostic-driver-v2-resume-stager.rs:4457-4538 | a run is a recovery exactly when an intent, pending or published, or root state is there |
| `ResumeStager.Stager.PublishIntent` | macOS/scripts/opensteamer-diagnostic-driver-v2-resume-stager.rs:4704-4720 | the intent is durable before anything follows |
| `ResumeStager.Stager.DispatchOriginal` | macOS/scripts/opensteamer-diagnostic-driver-v2-resume-stager.rs:4868-4881 | the dispatch is only ever issued with the intent durable, no root state and no earlier dispatch |
| `ResumeStager.Stager.RecoverSealed` | macOS/scripts/opensteamer-diagnostic-driver-v2-resume-stager.rs:4883-4912 | the sealed recovery succeeds exactly when its checks pass and, after at most as many busy attempts as the deadline allows, one gets through; it runs at most once |
| `ResumeStager.Stager.DispatchOrRecover` | macOS/scripts/opensteamer-diagnostic-driver-v2-resume-stager.rs:5069-5105 | success is a controller that ran in this call, and the live checks passed on the disk it left: the original, dispatched forward, or the sealed recovery, exactly once; a recovery run or one that finds root state only recovers; an undisturbed fresh run dispatches; an error on the way forward, up to the live check, is recovered from |
| `ResumeStager.Stager.Execute` | macOS/scripts/opensteamer-diagnostic-driver-v2-resume-stager.rs:5151-5193 | success is a controller that ran in this run and the live checks passed on the disk it left; a run that finds the point of no return passed dispatches nothing, and its success is one sealed recovery; an undisturbed fresh run dispatches exactly once; published files never change |
| `ResumeStager.AnyRuns` | macOS/scripts/opensteamer-diagnostic-driver-v2-resume-stager.rs:5151-5193 | over any number of cut runs the original controller is dispatched at most once, and only behind a durable intent, and every run that reports success ran a controller of its own |
| `Json.Parser.Parse` | macOS/scripts/opensteamer-diagnostic-driver-v1-update-controller.rs:6250-6257 | on success all bytes are consumed and they are the text of a derivation within the bounds, whose value is the result; and every text of a derivation within the bounds is accepted with its value |
| `Json.Parser.ParseNumber` | macOS/scripts/opensteamer-diagnostic-driver-v1-update-controller.rs:6372-6425 | an accepted number is spelled as section 6 of RFC 8259 demands and is exactly the bytes read; every such number with a delimiter behind it is accepted |
| `Json.Parser.ParseString` | macOS/scripts/opensteamer-diagnostic-driver-v1-update-controller.rs:6304-6370 | an accepted string is a sequence of plain bytes and escapes, exactly the bytes read, within the bound, and decodes to the result; every such string is accepted |
| `Json.Parser.ParseArray` | macOS/scripts/opensteamer-diagnostic-driver-v1-update-controller.rs:6427-6452 | an accepted array is the text of its items, one container deeper, and every such text within the bounds is accepted |
| `Json.Parser.ParseObject` | macOS/scripts/opensteamer-diagnostic-driver-v1-update-controller.rs:6454-6490 | an accepted object is the text of its members, no two of which spell the same key, and every such text within the bounds is accepted |
| `Json.Parser.ParseValue` | macOS/scripts/opensteamer-diagnostic-driver-v1-update-controller.rs:6269-6294 | every value is counted and checked against both bounds before it is read |
| `JsonGrammar.HeightIsBounded` | macOS/scripts/opensteamer-diagnostic-driver-v1-update-controller.rs:6269-6276 | no value of an accepted text lies more than 32 containers deep |
| `JsonGrammar.NoMemberIsLost` | macOS/scripts/opensteamer-diagnostic-driver-v1-update-controller.rs:6471-6474 | an accepted object has as many fields as its text has members |

## Left out

- Json.Parser.Parse: the UTF-8 check of decoded strings is a parameter, and a code point escape takes a leading plus sign as the source does.
- DriverUpdate.Machine.ReloadCoreAudio: the deadline is a number of further readings, and a daemon that is not back yet is one that cannot be read; the process start time is left aside, being a function of the start like the pid, so that comparing it decides nothing more.
- DriverUpdate.Machine.Record: the 128 KiB bound of the journal file is part of `DriverJournal` and not of the transaction machine.
- DriverUpdate.Machine.StageCandidate: the candidate is staged in one step, and the probes staged with it are not modelled.
- DriverUpdate.Machine.ArchiveFailed: a slot only ever holds V7, the candidate or nothing, so the refusals of an unrecognised bundle have no counterpart.
- PairedUpdate.Machine.Checkpoint: verification of bundles, signatures, launch agents and pairing data is a checkpoint that may fail.
- PairedJournal.Journal.Open: file identity, ownership and link checks appear only as fates.
- ResumeStager.Stager.VerifyStage: directory sizes and the contents of an abort result are taken to be right; `StageClassifier.ClassifyStage` has them as parameters.
- ResumeStager.Stager.RecoverSealed: the deadline is a number of further attempts, and the success marker that a controller prints is taken to be right.
- ResumeStager.Stager.DispatchOriginal: the dispatched controller is reduced to what it may leave behind, root state and an abort result.
- The active pointers of the driver controller and their pending images, the sealed request, the result files and the removal of stale state images.
- The rollback reserve: its allocation, headroom and release are checkpoints, and its identity appears only in the root state text.
- The user-side driver run; the journal code is modelled for both headers, and the records of the user's journal are in `DriverTexts.UserRecordIsRecordable`.
- Locks: one controller process at a time is assumed.
- Bounded command output, timeouts, sleeps, descriptor walks, ACL and extended-attribute checks, and the fixed pins.
- The stager's host generation predicates, which compare fields of two live observations.
- The launchd, process-table and bundle-manifest parsers, the self-tests, the Swift sources and the packaging scripts.
