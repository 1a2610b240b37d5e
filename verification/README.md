# Verification of TWeb's cores

TWeb puts a browser into a tmux pane. This project models the parts of it that hold state shared between
threads or processes, rewrite a user's files, or turn data into text that another program reads, and proves
what they are for. `dafny verify dfyconfig.toml` checks everything.

## What is modelled

- **One tty, many writers** (`TornScan`, `PaneWriter`, `WriterProtocol`, `Hosted`). The detector of torn
  graphics commands is defined and its loop proved to count by that definition. The mutex-guarded writer is a
  class over a tty that can fail after any byte, and a state machine over the bytes of any number of threads;
  the daemon's message pump feeds it.
- **Text steps on configuration files** (`ManagedBlock`, `LegacyTmux`, `LegacyGhostty`, `Doctor`, `DoctorTmux`,
  `DoctorGhostty`). `--fix` is migrate, then upsert. The fixpoint is proved for arbitrary text, over every way an
  occurrence could straddle the edges of a block; then exactly the paths are found for which the program's own
  block meets it.
- **Files shared by processes** (`ImageSweep`, `SweepRuns` and `SweepCollisions` with `ImageId`; `EngineApp`).
  Registry and sweep, and the unpack race, are step machines in which any process can die, and any write or
  delete fail or get lost, anywhere. For the sweep, the guard of each step is proved to be exact.
- **A frame in shared memory** (`FrameObject`). A class over a namespace whose every call can fail; one writer,
  which does not die half way.
- **Pixels** (`Channels`). The channel swap in three forms and the strided copy, over arrays and machine words.
- **Text for other programs** (`PosixShell`, `ShellQuote`, `SweepHook`, `PaneCommandLine`). A reader of shell
  text and one of tmux's double quotes take apart what the program puts together.
- **Domains, paths, settings** (`Sites`, `Playbook`, `Paths`, `PathWalk`, `OutputPath`, `SettingsFile`,
  `SettingsDocument`, `Settings` with `Doubles`).
- **Delta reporters** (`Visibility` with `Utf8`, `PointerProbe`). What a consumer holds after any run of probes.
- `Wrappers`, `Sequences`, `Text` and `Octets` hold what these share: optional values, first-occurrence search,
  the parts of Rust's `str` in use, bytes and their hexadecimal text.

Where the source loops or updates in place, a method does so too and is proved against a definition; the
definition is then pinned by lemmas that do not mention it.

## Where the code and its documentation part

The model follows the code. Each point has a lemma with the exact condition or a concrete run.

- The sweep's description says it never deletes an id of a pane tmux still lists. It does when two panes'
  identities hash to one of the slots, and on every server there are such panes
  (`SweepCollisions.SweepsBlankLivePages`).
- A page can be left on a terminal with no registry entry, so that no sweep will ever delete it. Six kinds of step
  can begin that: recording a pane, a frame that a frontend no longer expects, a frontend's own delete, its
  going back to the daemon or to an engine, its giving up, and a sweep's delete. Each has a guard, and after any
  run that kept to the guards a step can lead to such a page exactly if its guard fails
  (`SweepRuns.GuardsAreExact`). Ten reachable ways are given: a pane recorded between a sweep's listing and its
  scan, after its pane was respawned, between another frontend's look at its entry and the removal, or with the
  writing broken off; a hosted page's frame after the frontend's delete; a return to the daemon after an older
  process recorded the pane; no engine to start; a teardown after the pane is gone, one whose delete is lost, and
  a sweep whose delete is lost (`SweepRuns.RecordDuringSweepOrphans` and those behind it).
- The registry of writers is there so that one tty has one mutex. A writer that was released or replaced while a
  thread holds it has its own, and so have two panes recorded with one tty path; they can tear each other's
  commands (`PaneWriter.ReleasedTooSoon`, `PaneWriter.Writers.NeverTornIff`). A call keeps one writer to a device
  exactly if none is alive on its path (`PaneWriter.Writers.WriterFor`).
- `--fix` keeps what the user wrote, but a configuration that is not UTF-8 counts as empty and is replaced
  (`DoctorTmux.OnlyTextIsKept`).
- The hook runs the binary whatever its path, but for a path with a tmux format in it
  (`SweepHook.HookFormatsIff`).
- `--fix` is meant to be at rest once run. It is not for a configuration path with a marker in it
  (`DoctorTmux.FixTmuxTwiceIff`, `DoctorGhostty.FixGhosttyTwiceIff`).
- The include line escapes what tmux's double quotes end with, but not the dollar sign it expands
  (`DoctorTmux.IncludeReadsBackIff`).
- A site entry without a scheme whose query holds a `://` names the host behind that one
  (`Sites.AnySchemeIsTaken`).
- Panes are meant to have pools of their own. Panes of one server whose names differ in the last byte alone do
  (`ImageId.AlikeButLastApart`); others need not.
- `config set` stops at an inline table, which the source takes for one it has just made
  (`SettingsFile.PutSucceedsIff`). A range is meant to keep the file from holding a number that silently means
  something else; without one, a whole number beyond 2^53 can (`Settings.StoredReadsBackIff`).
- The word-at-a-time swap equals the scalar one only on little-endian machines (`Channels.FastFormAgreesIff`).
- The tear detector misses a splice inside the three opening bytes or between the two bytes of the terminator
  (`TornScan.DetectorExact`).
- A failed write leaves the writer usable, but the prefix it left can swallow what comes next, exactly if it
  is not closed, and a run in which it does is given (`WriterProtocol.FailureHarmsUnlessClosed`,
  `WriterProtocol.FailureCanTear`).
- Lexical normalisation keeps every walk that arrives, but can make one arrive that did not, out of a
  directory that is not there (`PathWalk.NormalizedWalksAlikeIff`).

## Model

| member | source | states |
|---|---|---|
| `TornScan.CountTornCommands` | crates/tweb-pane/src/pane_writer.rs:161-188 | the scanner's loop returns the number of torn commands of the stream, as the definition `Torn` counts them |
| `TornScan.ClosedAdds` | crates/tweb-pane/src/pane_writer.rs:161-188 | after a closed unit the count is additive, and closed units stay closed when joined |
| `TornScan.ClosedIffHarmless` | crates/tweb-pane/src/pane_writer.rs:161-188 | a unit is closed if and only if no well-formed unit written after it can change its count |
| `TornScan.TornMonotone` | crates/tweb-pane/src/pane_writer.rs:161-188 | writing more never lowers the count |
| `TornScan.UnitsWellFormed` | crates/tweb-pane/src/pane_writer.rs:161-188 | any sequence of well-formed units is well-formed: its count is 0 and nothing is left open |
| `TornScan.DetectorExact` | crates/tweb-pane/src/pane_writer.rs:161-188 | a CSI spliced into one whole command at any position is counted exactly when it falls strictly between START and END; in the opening or between the two bytes of the terminator it is missed |
| `PaneWriter.Writer.WriteBatch` | crates/tweb-pane/src/pane_writer.rs:71-83 | the tty gets a prefix of the batch, the whole batch on success or on a sound tty, and a well-formed stream stays well-formed |
| `PaneWriter.Writer.WriteSequence` | crates/tweb-pane/src/pane_writer.rs:60-62 | the tty gets a prefix of the sequence, all of it on success or on a sound tty |
| `PaneWriter.Writers.WriterFor` | crates/tweb-pane/src/pane_writer.rs:119-139 | the same pane and tty path give the same writer; a changed path, a new pane or a released one give a fresh writer on the device its path names; a tty that cannot be opened changes nothing; and if every device had at most one living writer, that stays so if and only if the writer was known, nothing was opened, or none was alive on the path, threads that still hold a released or replaced one included |
| `PaneWriter.Writers.OneDeviceIff` | crates/tweb-pane/src/pane_writer.rs:98-144 | of all the writers there ever were, two reach one device if and only if they were opened on one tty path |
| `PaneWriter.Writers.NeverTornIff` | crates/tweb-pane/src/pane_writer.rs:98-144 | while only whole batches are written, no device is ever torn if and only if each has at most one living writer |
| `PaneWriter.NeverTornIffOneWriter` | crates/tweb-pane/src/pane_writer.rs:36-83 | for one device: over every interleaving of the streams of so many writers, none is torn if and only if there is at most one |
| `PaneWriter.ReleasedTooSoon` | crates/tweb-pane/src/pane_writer.rs:119-144 | one pane is enough: released and asked for again while a thread holds its writer, it has two on one device, and what they write can be torn |
| `PaneWriter.TwoWritersTear` | crates/tweb-pane/src/pane_writer.rs:98-144 | then the mutexes do not protect the device from each other: the interleaving that tears a command, for every command, foreign sequence and place between opening and terminator |
| `PaneWriter.Writers.Release` | crates/tweb-pane/src/pane_writer.rs:142-144 | exactly the pane's entry is gone; its writer lives on while a thread holds it |
| `WriterProtocol.StepKeepsSerialised` | crates/tweb-pane/src/pane_writer.rs:60-83 | each step (taking the lock, one byte, next sequence, finishing, failing) keeps the stream equal to the turns in lock order plus the holder's partial batch, and each thread's batches in its own order |
| `WriterProtocol.RunsSerialise` | crates/tweb-pane/src/pane_writer.rs:60-83 | the same for every state of every interleaving of any number of threads |
| `WriterProtocol.RunsNeverTear` | crates/tweb-pane/src/pane_writer.rs:60-83 | if all sequences sent are well-formed and what failed writes left behind is closed, the count of the stream is 0 at every point of every run, in the middle of a batch too, and unlocked states are well-formed |
| `WriterProtocol.FailureHarmsUnlessClosed` | crates/tweb-pane/src/pane_writer.rs:60-83 | in any run in which a write has just failed, earlier failures having left closed prefixes, that failure is harmless to every well-formed batch that could come next if and only if the prefix it left is closed |
| `WriterProtocol.UnclosedFailureTears` | crates/tweb-pane/src/pane_writer.rs:60-83 | if it is not closed, the run goes on to a torn command as soon as a thread's next batch breaks the open one, although that batch is whole and well-formed |
| `WriterProtocol.FailureCanTear` | crates/tweb-pane/src/pane_writer.rs:60-83 | such a run exists: a command cut off behind its opening, then another thread's whole turn, and the count is 1 |
| `Hosted.Apply` | crates/tweb-pane/src/hosted.rs:126-199 | one answer: only a current frame or a tracked keyboard restore writes, whole or nothing, and only a current loss or close ends hosting; `Hosted.EffectMeans` tells the effect from the answer alone |
| `Hosted.EffectMeans` | crates/tweb-pane/src/hosted.rs:126-199 | an arrival writes bytes if and only if it is a current frame with their hexadecimal text or a tracked keyboard restore, and ends hosting if and only if it is a current loss or close or a read error, with that reason |
| `Hosted.Pump` | crates/tweb-pane/src/hosted.rs:205-228 | the loop's bytes and its reason are those of the definition; on a sound tty the bytes are exact, otherwise a beginning of each sequence in order |
| `Hosted.PumpShows` | crates/tweb-pane/src/hosted.rs:205-228 | for every run of arrivals: exactly the bytes of the current frames and tracked keyboard restores, in order, up to the first current loss, close or read error, whose reason is the pump's, or that the daemon hung up |
| `Octets.DecodesIff` | crates/twebd/src/engine_wire.rs:226-252 | a text decodes to bytes if and only if it is their hexadecimal text, in whatever case |
| `Octets.HexOfByte` | crates/twebd/src/engine_wire.rs:226-233 | a byte is two digits, the higher half first |
| `Octets.EncodeAppend` | crates/twebd/src/engine_wire.rs:226-233 | and the bytes of a text follow one another |
| `Hosted.ForeignMessagesDoNotMatter` | crates/tweb-pane/src/hosted.rs:126-228 | deleting every message of another generation and every undecodable line changes neither the bytes nor the outcome |
| `Hosted.PumpNeverTears` | crates/tweb-pane/src/hosted.rs:126-228 | if the current frames are whole commands, what the pump leaves on the tty has count 0, keyboard restores and writes that failed with a closed prefix included |
| `Hosted.ControlIsOneLineIff` | crates/tweb-pane/src/hosted.rs:231-240 | a control body keeps everything but its trailing newlines, and is one line exactly if it had no other newline |
| `Hosted.SessionWritesOnlyItsOwn` | crates/tweb-pane/src/attach.rs:73-110 | not a byte is written unless the flag is not off, the daemon was reached and its first answer accepts the pane; then every sequence written comes from a line of the very generation it accepted |
| `Hosted.SessionFollowsAnswer` | crates/tweb-pane/src/attach.rs:73-110 | and conversely: an accepted pane is pumped under exactly the generation it was given, and any other answer is the reason to spawn |
| `Hosted.SessionWithoutDaemon` | crates/tweb-pane/src/attach.rs:73-110 | a pane that opted out or finds no daemon writes nothing and says which |
| `ManagedBlock.CountMatches` | crates/tweb-cli/src/doctor.rs:1359-1360 | the number of non-overlapping matches, as `matches` counts |
| `ManagedBlock.UpsertManagedBlock` | crates/tweb-cli/src/doctor.rs:1358-1386 | the buffer the code builds is the specified text or the specified refusal |
| `ManagedBlock.UpsertSucceedsIff` | crates/tweb-cli/src/doctor.rs:1358-1386 | it succeeds exactly if each marker stands at most once and either both are there in order or neither is |
| `ManagedBlock.UpsertFailsAs` | crates/tweb-cli/src/doctor.rs:1358-1380 | and each refusal says which: a marker that stands twice, a begin without an end behind it, an end without a begin |
| `ManagedBlock.UpsertInstalls` | crates/tweb-cli/src/doctor.rs:1358-1386 | a success leaves exactly one block between the user's text: verbatim around a replaced one, and the content without trailing white space before an appended one |
| `ManagedBlock.InstalledReplaced` | crates/tweb-cli/src/doctor.rs:1358-1386 | whatever block stands in an installed text, an upsert replaces exactly it |
| `ManagedBlock.AppendedBehind` | crates/tweb-cli/src/doctor.rs:1381-1386 | without a block, it is put behind the text without its trailing white space, a blank line between, or becomes the text if that was blank |
| `ManagedBlock.InstalledIsFixed` | crates/tweb-cli/src/doctor.rs:1358-1392 | an installed text is a fixpoint of the upsert, and `managed_block` reads the trimmed block from it |
| `LegacyTmux.MigrateLegacyTmux` | crates/tweb-cli/src/doctor.rs:1248-1258 | the loop terminates (each pass shrinks the text) with the text the definition gives |
| `LegacyTmux.MigrateLeaves` | crates/tweb-cli/src/doctor.rs:1248-1258 | the result is a subsequence of the text and holds no begin marker followed by an end marker |
| `LegacyTmux.MigrateKeepsRest` | crates/tweb-cli/src/doctor.rs:1248-1258 | any number of blocks on lines of their own are taken and everything between them is kept, in order |
| `LegacyTmux.MigrateCuts` | crates/tweb-cli/src/doctor.rs:1248-1258 | of text before, a block, and text behind without an end marker, exactly the block goes |
| `LegacyTmux.MigrateTakesBlocks` | crates/tweb-cli/src/doctor.rs:1248-1258 | for every text: it is the result with stretches put back, one after the other, that each begin with the begin marker and end with their first end marker |
| `LegacyTmux.LegacyApart` | crates/tweb-cli/src/doctor.rs:23-27 | the program's legacy markers meet the conditions |
| `LegacyTmux.MigrateChangesIff` | crates/tweb-cli/src/doctor.rs:1248-1258 | the text changes exactly if it held such a pair |
| `LegacyTmux.MigrateIdempotent` | crates/tweb-cli/src/doctor.rs:1248-1258 | migrating twice is migrating once, also when a deletion joined text into a new marker |
| `LegacyTmux.DeletionCanJoin` | crates/tweb-cli/src/doctor.rs:1248-1258 | a deletion can join text into a new pair: one pass would not do |
| `LegacyGhostty.MigrateClean` | crates/tweb-cli/src/doctor.rs:1220-1246 | no line of the result is a legacy binding |
| `LegacyGhostty.MigrateLineByLine` | crates/tweb-cli/src/doctor.rs:1239-1246 | line by line: a legacy binding goes, any other line stays as it is |
| `LegacyGhostty.IsLegacyIff` | crates/tweb-cli/src/doctor.rs:1220-1237 | a line is a legacy binding if and only if it is one of them in whatever case with whatever white space around it |
| `LegacyGhostty.MigrateFixedIff` | crates/tweb-cli/src/doctor.rs:1220-1246 | a text is left as it is exactly if none of its lines is a legacy binding |
| `LegacyGhostty.MigrateIdempotent` | crates/tweb-cli/src/doctor.rs:1220-1246 | filtering twice is filtering once |
| `Doctor.InstallTmuxFixpoint` | crates/tweb-cli/src/doctor.rs:1311-1324 | when upsert after migrate succeeds, doing it again changes nothing and the block reads back, for any markers and blocks that do not run into each other |
| `Doctor.InstallGhosttyFixpoint` | crates/tweb-cli/src/doctor.rs:1311-1324 | the same for the Ghostty file |
| `Doctor.ProgramMarkers` | crates/tweb-cli/src/doctor.rs:18-27 | the program's own markers meet the conditions |
| `Doctor.FramedIsBracketedIff` | crates/tweb-cli/src/doctor.rs:1336-1386 | a block whose lines stand between its markers meets the fixpoint's condition if and only if they hold neither marker |
| `DoctorTmux.FixTmuxTwice` | crates/tweb-cli/src/doctor.rs:1205-1258 | with the program's markers and its own include block, a second `--fix` writes nothing on any tmux configuration, for every path whose line holds neither marker nor the legacy begin |
| `DoctorTmux.FixTmuxTwiceIff` | crates/tweb-cli/src/doctor.rs:1205-1258 | and only for those: each other path has a configuration on which the second run refuses or writes again |
| `DoctorTmux.MarkerInPathRefused` | crates/tweb-cli/src/doctor.rs:1205-1386 | with a marker in the path's line, a first run on an empty file succeeds and the second is refused as duplicated |
| `DoctorTmux.LegacyInPathUnsettles` | crates/tweb-cli/src/doctor.rs:1205-1258 | with the legacy begin in it, a configuration that ends in a stray legacy end is fixed and then not at rest |
| `DoctorTmux.EndMarkerPathFails` | crates/tweb-cli/src/doctor.rs:1205-1386 | a concrete path that fails: the block's own end marker |
| `DoctorTmux.FixKeepsAround` | crates/tweb-cli/src/doctor.rs:1248-1386 | what stands between legacy blocks survives a fix, with the managed block in place of the old one |
| `DoctorTmux.FixKeepsBefore` | crates/tweb-cli/src/doctor.rs:1248-1386 | or before the new block, if there was none |
| `DoctorTmux.BlockSourcesPath` | crates/tweb-cli/src/doctor.rs:1212-1218 | between the markers stands one command, whose quoted argument tmux reads as exactly the path, unless it holds a dollar sign |
| `DoctorTmux.IncludeReadsBackIff` | crates/tweb-cli/src/doctor.rs:1212-1218 | the escaped path reads back if and only if there is no dollar sign in it |
| `DoctorGhostty.FixGhosttyTwiceIff` | crates/tweb-cli/src/doctor.rs:1205-1246 | a second `--fix` writes nothing on every Ghostty configuration if and only if the path's line holds neither marker; a path with newlines is no exception |
| `DoctorGhostty.PathUnfit` | crates/tweb-cli/src/doctor.rs:1205-1386 | with any other path, a first run on an empty file succeeds and the second is refused as duplicated |
| `DoctorGhostty.BlockNamesPath` | crates/tweb-cli/src/doctor.rs:1205-1210 | the block is its two markers and the one line with the path |
| `DoctorGhostty.FixForgetsLegacy` | crates/tweb-cli/src/doctor.rs:1220-1386 | a legacy binding on its own line makes no difference to what is installed |
| `DoctorGhostty.FixKeepsAround` | crates/tweb-cli/src/doctor.rs:1220-1386 | what a clean file holds is kept around the block that is replaced |
| `DoctorGhostty.FixKeepsBefore` | crates/tweb-cli/src/doctor.rs:1220-1386 | or before the new one |
| `Doctor.ConfigFile.FixTmux` | crates/tweb-cli/src/doctor.rs:1311-1356 | the file holds the installed text, a refusal or a failed call leaves it, what is replaced stands in the backup, and the result tells whether it changed; a file that is no text counts as empty |
| `DoctorTmux.OnlyTextIsKept` | crates/tweb-cli/src/doctor.rs:1311-1356 | a file that may not be read stays; one that is no text ends as the block alone, with what it held only in the backup; text ends as the install has it |
| `Doctor.ConfigFile.FixGhostty` | crates/tweb-cli/src/doctor.rs:1311-1356 | the same for the Ghostty file |
| `ImageId.ComputeHash` | crates/tweb-pane/src/image_id.rs:66-75 | the byte loop computes the FNV-1a hash as defined |
| `ImageId.StepBijective` | crates/tweb-pane/src/image_id.rs:66-75 | for each byte the hash step is a bijection on the 64-bit states, with the inverse given |
| `ImageId.OneByteSeparates` | crates/tweb-pane/src/image_id.rs:66-75 | two texts that differ in exactly one byte never hash alike |
| `ImageId.IdentityTellsPanes` | crates/tweb-pane/src/image_id.rs:41-58 | the hashed identities of two panes are alike only if server and name are, or outside tmux name and pid, as long as the leading part holds no separator |
| `ImageId.AlikeButLastApart` | crates/tweb-pane/src/image_id.rs:41-79 | panes of a server whose names differ in the last byte alone never share an id, nor do processes outside tmux whose pids do |
| `ImageId.PoolInRange` | crates/tweb-pane/src/image_id.rs:19-58 | all nine ids of every pane's pool lie between ORIGIN and 2^31 - 1 |
| `ImageId.PoolsApart` | crates/tweb-pane/src/image_id.rs:26-79 | the pools of two slots are the same or share no id |
| `ImageId.PoolsSharedIff` | crates/tweb-pane/src/image_id.rs:41-79 | two panes share an id exactly if their identities fall into one slot, and then the whole pool; a frontend that relaunches inside tmux does, whatever its pid |
| `ImageSweep.StepKeepsTruthful` | crates/tweb-pane/src/image_sweep.rs:60-149 | every step of tmux, frontends and sweeps, deletes that get lost included, keeps registry and sweeps true: what a sweep holds for dead was not in its listing |
| `ImageSweep.StepSafeIff` | crates/tweb-pane/src/image_sweep.rs:60-149 | a step from a safe state leads to a safe state if and only if its guard holds; six kinds of step have one |
| `ImageSweep.OwnDeleteSparesIff` | crates/tweb-pane/src/lib.rs:398-417 | a frontend's own delete takes exactly the pages of its pool, where it arrives, and nothing once its pane is gone |
| `SweepRuns.RunsKeepTruthful` | crates/tweb-pane/src/image_sweep.rs:60-149 | the same truth in every state of every run, guarded or not |
| `SweepRuns.SweepProtocol` | crates/tweb-pane/src/image_sweep.rs:60-149 | in every guarded run no page is orphaned, every pane that draws on record has an entry no other process will drop, and what a sweep or a frontend is about to remove is neither drawn nor shown |
| `SweepRuns.SafeIffNotDoomed` | crates/tweb-pane/src/image_sweep.rs:60-149 | safety is exact: a state is unsafe if and only if guarded steps alone can orphan a page from it |
| `SweepRuns.GuardsAreExact` | crates/tweb-pane/src/image_sweep.rs:60-149 | after any guarded run, the next step can lead to an orphan if and only if its guard fails |
| `SweepRuns.RemovedStaysGone` | crates/tweb-pane/src/image_sweep.rs:121-149 | while guards hold, a removed pane stays without entry and page until a frontend records it anew |
| `SweepRuns.RecordDuringSweepOrphans` | crates/tweb-pane/src/image_sweep.rs:121-149 | a reachable state where recording a pane begun between a sweep's listing and its scan orphans its page |
| `SweepRuns.LateRecordOrphans` | crates/tweb-pane/src/image_sweep.rs:60-76 | another where a frontend records after its pane was taken over |
| `SweepRuns.DamagedRecordOrphans` | crates/tweb-pane/src/image_sweep.rs:68-76 | another where a recording that breaks off loses the entry a killed frontend left for its page |
| `SweepRuns.RecordDuringDropOrphans` | crates/tweb-pane/src/image_sweep.rs:79-85 | another where a frontend compares its entry, and removes it after its successor has recorded the pane |
| `SweepRuns.LateFrameOrphans` | crates/tweb-pane/src/lib.rs:1084-1231 | another where the pump of a hosted page, not stopped with its session, writes one more frame after the frontend's own delete |
| `SweepRuns.ResumeOrphans` | crates/tweb-pane/src/lib.rs:971-1000 | another where a frontend goes back to the daemon after an older process has recorded the pane |
| `SweepRuns.GivenUpOrphans` | crates/tweb-pane/src/lib.rs:542-700 | another where a frontend that took over a killed one's page cannot start an engine, and drops the entry without a delete |
| `SweepRuns.LateTeardownOrphans` | crates/tweb-pane/src/image_sweep.rs:79-85 | another where a frontend tears down after its pane is gone: it drops its entry although its delete reached nobody |
| `SweepRuns.LostTeardownOrphans` | crates/tweb-pane/src/lib.rs:398-417 | another where a frontend's own delete is lost although its pane is listed |
| `SweepRuns.LostSweepDeleteOrphans` | crates/tweb-pane/src/image_sweep.rs:121-149 | another where a sweep's delete is lost, because no client is listed or no tty can be written to, and it removes the entry all the same |
| `SweepRuns.ListedAndScanned` | crates/tweb-pane/src/image_sweep.rs:88-131 | from the listing to the last scan a sweep holds for dead exactly the registry's panes that were not listed, with their bases |
| `SweepRuns.SweepSweeps` | crates/tweb-pane/src/image_sweep.rs:121-149 | let through from any safe state, a sweep whose deletes arrive leaves neither a recorded page nor an entry of an unlisted pane, and touches no entry of a listed one |
| `SweepCollisions.ClearSparesIff` | crates/tweb-pane/src/image_sweep.rs:134-145 | a sweep deletes a page exactly if the delete arrives and the page's pool is that of an entry whose pane was absent from the listing |
| `SweepCollisions.PoolsOfServer` | crates/tweb-pane/src/image_sweep.rs:134-137 | deleting one pane's ids touches another's exactly if their identities hash to one slot |
| `SweepCollisions.SomePanesShareAPool` | crates/tweb-pane/src/image_id.rs:41-58 | on every server, whatever its panes are called, there are two panes with one pool |
| `SweepCollisions.SharedPoolBlanks` | crates/tweb-pane/src/image_sweep.rs:121-149 | if two panes share a pool, a guarded run exists in which a sweep for one, killed, deletes the page the other, listed, is drawing |
| `SweepCollisions.SweepsBlankLivePages` | crates/tweb-pane/src/image_sweep.rs:121-149 | so on every server some sweep deletes a live page of a pane it saw listed |
| `FrameObject.Namespace.WriteFrame` | crates/tweb-frame-native/src/lib.rs:25-58 | with any system call free to fail: `Ok` binds the name to a fresh object of exactly the frame's length and pixels; `Err` leaves the name unbound or with what it had, if the cleanup works; no object or other name that existed changes; and where no call fails, every frame with a portable name is written |
| `FrameObject.Namespace.Unlink` | crates/tweb-frame-native/src/lib.rs:61-76 | removes the name, finds it missing, or is refused and changes nothing |
| `FrameObject.Namespace.Fill` | crates/tweb-frame-native/src/lib.rs:92-128 | on success the object holds the pixels, swapped when asked, and no other object changes |
| `Channels.SwapInto` | crates/tweb-frame-native/src/lib.rs:197-206 | the in-place loop writes each whole pixel swapped and leaves the rest |
| `Channels.SwapScalar` | bench/convert-bench.rs:19-29 | the scalar loop writes the swapped pixels and leaves the rest |
| `Channels.SwapU32` | bench/convert-bench.rs:32-39 | the mask-and-shift loop, on a machine of either byte order; on a little-endian one it writes the swapped pixels |
| `Channels.SwapTwice` | bench/convert-bench.rs:19-29 | swapping twice is the identity on whole pixels |
| `Channels.SwapKeepsColours` | crates/tweb-frame-native/src/lib.rs:197-206 | each pixel keeps its red, green, blue and alpha, from where they stand in BGRA to where they stand in RGBA |
| `Channels.FastFormAgreesIff` | bench/convert-bench.rs:19-39 | the fast form agrees with the scalar one on a little-endian machine, and on a big-endian one exactly for buffers whose pixels are symmetric |
| `Channels.ReadSurface` | crates/tweb-frame-native/src/lib.rs:159-194 | the strided copy sets each pixel byte of each row from its place in the surface, with every index in bounds, and fails exactly when the lock, the address or the stride does |
| `EngineApp.StepKeepsInv` | crates/tweb-pane/src/engine_app.rs:381-446 | every step of any process, failing or crashing anywhere, keeps the invariant |
| `EngineApp.TargetAbsentOrApp` | crates/tweb-pane/src/engine_app.rs:381-446 | at every point of every run the target is absent or holds exactly the non-empty embedded files, and every `Ok` names such a directory |
| `EngineApp.TargetNeverChanges` | crates/tweb-pane/src/engine_app.rs:427-446 | once the target is there, no process changes it |
| `EngineApp.Unpacks` | crates/tweb-pane/src/engine_app.rs:427-446 | and it comes to be there: wherever there is none, a process that begins and is let go on unpacks the whole app and returns success |
| `EngineApp.AppIsUnique` | crates/tweb-pane/src/engine_app.rs:427-446 | any two unpacked applications are identical, so the winner's is the loser's |
| `EngineApp.LoserReturnsWinners` | crates/tweb-pane/src/engine_app.rs:437-445 | a process that lost the rename returns the winner's directory, and fails only when there is none |
| `ShellQuote.QuotedReadsBack` | crates/tweb-cli/src/lib.rs:1512-1514 | every value, quoted and read by a shell, is one word and that value |
| `SweepHook.EscapeForTmux` | crates/tweb-pane/src/image_sweep.rs:151-160 | the loop that pushes escapes computes the escaped text |
| `SweepHook.EscapedReadsBack` | crates/tweb-pane/src/image_sweep.rs:151-160 | escaped text inside double quotes reads back as it was and ends where it was ended: no quote or dollar sign in it is bare |
| `SweepHook.HookRunsProgram` | crates/tweb-pane/src/image_sweep.rs:151-188 | through all three layers: tmux reads the shell command, `run-shell` passes it on unchanged exactly if there is no format in the path, and the shell then runs exactly that path with the one argument, both outputs to the null device, and `true` if it fails |
| `SweepHook.HookFormatsIff` | crates/tweb-pane/src/image_sweep.rs:151-188 | `run-shell` copies the command if and only if no `#` in the path stands before what begins a format, a job, an alias or an escape: quoting neither makes nor breaks one |
| `PaneCommandLine.BuildPaneCommand` | crates/tweb-cli/src/lib.rs:1346-1378 | the string the code appends to is the specified command line, and a shell reads it as one command with exactly the listed variables and the intended arguments, if what the caller adds has shell names |
| `PaneCommandLine.BuildDevtoolsCommand` | crates/tweb-cli/src/lib.rs:1437-1446 | for the pane of `tweb devtools`, whose extra variable is one, that holds without a condition |
| `PaneCommandLine.PassedOnNames` | crates/tweb-cli/src/lib.rs:1353-1364 | the overrides the program passes on have shell names |
| `PaneCommandLine.PassedOnIs` | crates/tweb-cli/src/lib.rs:1353-1364 | what is passed on is those of four variables that are set, with their values |
| `PaneCommandLine.PaneArgvIs` | crates/tweb-cli/src/lib.rs:1346-1378 | the arguments spelled out: engine, frame rate, the two rate flags, ssh target, transparency, address |
| `PaneCommandLine.PaneCommandReadsBack` | crates/tweb-cli/src/lib.rs:1353-1378 | a shell splits the command line into exactly the intended assignments and arguments, whatever the values hold, for variables with shell names |
| `Paths.Normalize` | crates/tweb-cli/src/lib.rs:841-859 | the loop that pushes and pops computes the normal form |
| `Paths.NormalizedMeansTheSame` | crates/tweb-cli/src/lib.rs:841-859 | the normal form names the same place as the original from every directory |
| `Paths.NormalFormIsCanonical` | crates/tweb-cli/src/lib.rs:841-859 | two paths have one normal form exactly if they name the same place from every directory |
| `Paths.NormalizeIdempotent` | crates/tweb-cli/src/lib.rs:841-859 | normalising twice is normalising once |
| `Paths.NormalizeComposes` | crates/tweb-cli/src/lib.rs:841-859 | normalising a join equals normalising the left part first |
| `PathWalk.NormalizedWalks` | crates/tweb-cli/src/lib.rs:841-859 | in every tree without links, wherever the original path arrives the normalised one arrives at the same node |
| `PathWalk.WalksIffDetoursExist` | crates/tweb-cli/src/lib.rs:841-859 | a path arrives if and only if there is something where it leads and a directory before each of its `..` and `.` |
| `PathWalk.NormalizedWalksIff` | crates/tweb-cli/src/lib.rs:841-859 | a normalised path arrives if and only if there is something where it leads |
| `PathWalk.NormalizedWalksAlikeIff` | crates/tweb-cli/src/lib.rs:841-859 | so both end alike exactly if there is nothing there, or every directory the original turns back in is there |
| `PathWalk.MissingDetourIsForgotten` | crates/tweb-cli/src/lib.rs:841-859 | normalising can make a path lead somewhere: out of a directory that is not there |
| `OutputPath.ResolveOutputPath` | crates/tweb-cli/src/lib.rs:868-876 | the method computes the specified text |
| `OutputPath.RenderedReadsBack` | crates/tweb-cli/src/lib.rs:841-859 | the text of a normal path reads as its components again |
| `OutputPath.ResolvedIsAbsolute` | crates/tweb-cli/src/lib.rs:868-876 | from an absolute directory the result is absolute, has no `.` or `..`, and names the place the trimmed value names from that directory |
| `Sites.SiteHostIsHost` | crates/tweb-cli/src/sites.rs:12-24 | whatever an entry is accepted as has no URL decoration left |
| `Sites.WrittenNamesHost` | crates/tweb-cli/src/sites.rs:12-24 | a host in any case, with white space, a scheme, a user part, wildcards, trailing dots, a port, and a path, query or fragment around it, is what the entry names |
| `Sites.AcceptedIsWritten` | crates/tweb-cli/src/sites.rs:12-24 | and every accepted entry is its host written in one of these ways |
| `Sites.AnySchemeIsTaken` | crates/tweb-cli/src/sites.rs:14-16 | the first `://` is taken for the scheme's, whatever stands before it |
| `Text.LowerIs` | crates/tweb-cli/src/sites.rs:22-22 | letters of ASCII get their small form and nothing else changes |
| `Sites.SiteHostIdempotent` | crates/tweb-cli/src/sites.rs:12-24 | what is accepted is accepted again unchanged |
| `Sites.CoversIffLabels` | crates/tweb-cli/src/sites.rs:53-58 | an entry covers a host exactly if its labels are the last of the host's |
| `Sites.EqualCover` | crates/tweb-cli/src/sites.rs:68-90 | covering entries of equal length are equal |
| `Sites.PinnedEngine` | crates/tweb-cli/src/sites.rs:68-90 | the nested loops find the longest covering entry over all lists, with the first engine in order that lists it, or nothing if nothing covers |
| `Sites.WrittenHostIsPinned` | crates/tweb-cli/src/sites.rs:68-90 | a list of any engine that holds a host, however written, pins it, and nothing pins it better |
| `Sites.ListIsFirst` | crates/tweb-cli/src/sites.rs:72-75 | an engine's list is the first under its name |
| `Sites.PinIsUnique` | crates/tweb-cli/src/sites.rs:68-90 | only one answer meets that, and it depends on nothing but the set each list names |
| `Sites.OrderInListsIsIrrelevant` | crates/tweb-cli/src/sites.rs:68-90 | reordering or repeating entries inside a list changes no pin |
| `Sites.MatchesIffPins` | crates/tweb-cli/src/sites.rs:48-59 | `matching_site` finds an entry exactly if that list alone pins the host |
| `Sites.MatchIsFirst` | crates/tweb-cli/src/sites.rs:48-59 | and it is the first entry that covers the host |
| `Playbook.LookupKeys` | crates/tweb-cli/src/playbook.rs:36-50 | the loop lists the keys as defined |
| `Playbook.KeyIs` | crates/tweb-cli/src/playbook.rs:24-31 | a host is its own key, unless it could not name a file |
| `Playbook.KeyOfWww` | crates/tweb-cli/src/playbook.rs:24-31 | with a leading `www.` it has the key it has without |
| `Playbook.KeysExact` | crates/tweb-cli/src/playbook.rs:36-50 | the keys are exactly the host key and every parent domain with at least two labels |
| `Playbook.KeysShrink` | crates/tweb-cli/src/playbook.rs:36-50 | in strictly decreasing length |
| `Playbook.FindsLongest` | crates/tweb-cli/src/playbook.rs:53-58 | the file found is that of the longest recorded site covering the host, and none is found exactly if there is none |
| `Playbook.FoundOnceWritten` | crates/tweb-cli/src/playbook.rs:68-70 | the file written for a target is the one found for it afterwards |
| `Playbook.NewFileIsOwn` | crates/tweb-cli/src/playbook.rs:68-70 | a target nothing was recorded for gets a file named after its key |
| `Playbook.ElsewhereUnchanged` | crates/tweb-cli/src/playbook.rs:53-58 | writing one site's file changes nothing for a target that does not fall under that site |
| `Playbook.SubdomainJoins` | crates/tweb-cli/src/playbook.rs:68-70 | a lesson for a subdomain goes into its site's file |
| `Playbook.Directory.WriteIn` | crates/tweb-cli/src/playbook.rs:136-169 | a success changes one file, which ends in a newline and, when appending, keeps all it held before the fewest line breaks that make a blank line, and the content; a write that stops leaves a beginning of that in that file, which is found from then on; every other failure changes nothing |
| `Playbook.StoppedAppendKeepsIff` | crates/tweb-cli/src/playbook.rs:143-167 | an append that is stopped keeps the earlier lessons exactly if it came past their end |
| `SettingsDocument.Document.FileValue` | crates/tweb-cli/src/config.rs:81-87 | walking down one part at a time, through inline tables too, finds what the tree of tables has under the key |
| `SettingsDocument.TableObject.Set` | crates/tweb-cli/src/config.rs:327-353 | changing the tables in place, making those that are missing, gives the tree with the value at the key and shares nothing; before an inline table the program stops with the tree as it was |
| `SettingsDocument.TableObject.Remove` | crates/tweb-cli/src/config.rs:355-369 | changing the tables in place, inline ones too, gives the tree without the key, and tells whether it was there |
| `SettingsDocument.Document.SetIn` | crates/tweb-cli/src/config.rs:327-353 | it gets through exactly if no table that leads to the key is inline; the key then has the value, and keys not related to it have what they had |
| `SettingsDocument.Document.RemoveIn` | crates/tweb-cli/src/config.rs:355-369 | the key is then unset, the result tells whether it was set, and unrelated keys keep theirs |
| `SettingsFile.KeyPartsAre` | crates/tweb-cli/src/config.rs:327-329 | the parts of a key are what its dots separate |
| `SettingsFile.PutSucceedsIff` | crates/tweb-cli/src/config.rs:327-339 | a key can be set if and only if none of the tables that lead to it is inline |
| `SettingsFile.InlineTableStopsSet` | crates/tweb-cli/src/config.rs:331-339 | a concrete file for which `set` stops: `scroll = { distance = 1 }` |
| `SettingsFile.SetThenRemoved` | crates/tweb-cli/src/config.rs:327-369 | setting and removing a key leaves it unset and unrelated keys alone |
| `SettingsFile.LastSetWins` | crates/tweb-cli/src/config.rs:327-353 | setting twice is setting the second value |
| `Doubles.ThroughDoubleIff` | crates/tweb-cli/src/config.rs:149-162 | a 64-bit integer survives the way through a double and back if and only if it has no digit below the spacing of doubles there, or is the largest of all |
| `Doubles.NearestIsNearest` | crates/tweb-cli/src/config.rs:149-162 | a whole number becomes the nearest of the numbers doubles have there, of two the even one |
| `Doubles.FirstLost` | crates/tweb-cli/src/config.rs:149-162 | the first that does not: 2^53 + 1 |
| `Settings.StoredReadsBackIff` | crates/tweb-cli/src/config.rs:149-175 | every accepted input is read from the file as exactly what was meant, clamping and trimming doing nothing, if and only if it is not a whole number that loses digits |
| `Settings.BoundedKeepsDigits` | crates/tweb-cli/src/config.rs:269-283 | with bounds below 2^53, as every setting of the program has, no accepted number loses any |
| `Settings.SetThenResolve` | crates/tweb-cli/src/config.rs:188-213 | any accepted input can be stored exactly if no table on its way is inline; stored, it resolves without an environment value to source file and, exactly if it keeps its digits, to that value, paths with the home expanded |
| `Settings.EnvironmentFirst` | crates/tweb-cli/src/config.rs:188-203 | an environment value that can be read as the setting's kind is the answer, whatever the file holds; kind by kind it is spelled out what it is |
| `Settings.UnreadableEnvironment` | crates/tweb-cli/src/config.rs:188-203 | one that cannot, or an empty one, changes nothing |
| `Settings.FileBeforeDefault` | crates/tweb-cli/src/config.rs:149-213 | then the file, where it holds a value of the setting's kind, spelled out kind by kind, and else the default |
| `Settings.InputMeans` | crates/tweb-cli/src/config.rs:266-316 | the words and numbers that may be typed, and what each is taken for or refused as |
| `Settings.RoundIs` | crates/tweb-cli/src/config.rs:149-162 | rounding is to the nearest whole number, half away from zero |
| `Settings.ClampIs` | crates/tweb-cli/src/config.rs:96-100 | clamping gives the nearest number within the bounds |
| `Settings.OthersResolveAsBefore` | crates/tweb-cli/src/config.rs:188-213 | setting or removing a key changes no unrelated setting, in any environment |
| `Settings.RemoveRestoresDefault` | crates/tweb-cli/src/config.rs:188-213 | removing a setting restores its default |
| `Settings.SplitListIsEntries` | crates/tweb-cli/src/config.rs:128-147 | whichever way a list is written its entries are trimmed and not empty |
| `Settings.JsonListReads` | crates/tweb-cli/src/config.rs:128-140 | a JSON array of strings is read as the array it is |
| `Settings.ShownListReadsBackIff` | crates/tweb-cli/src/config.rs:380-395 | a shown list that does not begin with a bracket reads back exactly if its entries are trimmed, not empty and without a comma |
| `Settings.FirstEntryDecides` | crates/tweb-cli/src/config.rs:128-131 | such a list begins with a bracket exactly if its first entry does |
| `Settings.EmptyListReadsBack` | crates/tweb-cli/src/config.rs:380-383 | the empty list reads back |
| `Visibility.ParseProbe` | crates/tweb-pane/src/visibility.rs:85-142 | the loop keeps the last usable geometry and placement and the clients in order |
| `Visibility.PlacementAnywhere` | crates/tweb-pane/src/visibility.rs:85-142 | the placement line may stand anywhere among the client lines |
| `Visibility.ProbeReadsBack` | crates/tweb-pane/src/visibility.rs:40-142 | what tmux prints reads back: placement and every client as they went in |
| `Visibility.GeometryReadsBack` | crates/tweb-pane/src/visibility.rs:60-121 | columns, rows, left and top read back as printed, exactly if they fit; the pixel size is the rounded product of cells and cell size where that fits, and the learned one otherwise |
| `Visibility.LineIs` | crates/tweb-pane/src/visibility.rs:93-130 | a placement line is one tagged P, a client line one tagged C with a tty that is not empty, and nothing else is read |
| `Visibility.PrintedReadsBack` | crates/tweb-pane/src/visibility.rs:90-90 | printed lines are the lines read |
| `Visibility.OtherEndsReadBack` | crates/tweb-pane/src/visibility.rs:90-90 | so do lines that end with a carriage return, and a last line without an end |
| `Visibility.BuildPayload` | crates/tweb-pane/src/visibility.rs:148-156 | the payload pushed together is the specified text |
| `Visibility.PayloadReadsBack` | crates/tweb-pane/src/visibility.rs:148-156 | the engine reads the three placement fields and the clients from a payload |
| `Visibility.MessageReadsBack` | crates/tweb-pane/src/visibility.rs:160-169 | a message is one line and decodes to its payload, whatever characters that holds |
| `Utf8.Table` | crates/tweb-pane/src/visibility.rs:160-169 | the bytes of a character are those of UTF-8's table |
| `Visibility.Reporter.ChangedVisibilityMessage` | crates/tweb-pane/src/visibility.rs:173-184 | a message exactly if the pane was found and the payload differs from the last, which is then remembered |
| `Visibility.Reporter.Report` | crates/tweb-pane/src/visibility.rs:173-184 | a run of probes pushes exactly what the definition lists |
| `Visibility.ReceiverAgrees` | crates/tweb-pane/src/visibility.rs:173-184 | at every point the receiver holds what the last probe that found the pane said |
| `Visibility.PushesDiffer` | crates/tweb-pane/src/visibility.rs:173-184 | no push repeats the one before it |
| `Visibility.UnresolvableDoNotMatter` | crates/tweb-pane/src/visibility.rs:173-184 | probes that did not find the pane change nothing |
| `PointerProbe.WindowAtIsFrontmost` | crates/tweb-native-input/src/wire.rs:35-46 | the frontmost ordinary window containing the point, or none if there is none |
| `PointerProbe.Probe.Record` | crates/tweb-native-input/src/wire.rs:78-90 | the answer is remembered and returned exactly if it is news |
| `PointerProbe.Helper.OnPointer` | crates/tweb-native-input/src/mac.rs:120-140 | a pointer event does what the step of a run does |
| `PointerProbe.Helper.OnScroll` | crates/tweb-native-input/src/mac.rs:142-161 | so does a scroll event |
| `PointerProbe.TellsIff` | crates/tweb-native-input/src/mac.rs:120-161 | exactly which events are told: while armed, every scroll, every drag, and every move that comes no sooner than the interval after the last told pointer event |
| `PointerProbe.ProbesIff` | crates/tweb-native-input/src/wire.rs:65-75 | exactly when the window list is asked at a told event: never before, at the start of a scroll, when the answer is stale, or when the pointer has moved and the interval is over |
| `PointerProbe.RemembersLastProbe` | crates/tweb-native-input/src/wire.rs:65-91 | after any run the helper remembers the last probe and its answer |
| `PointerProbe.ConsumerAgrees` | crates/tweb-native-input/src/mac.rs:120-173 | the consumer always holds what the last probe answered |
| `PointerProbe.AnswersAreNews` | crates/tweb-native-input/src/mac.rs:120-173 | it is never told the same answer twice running |
| `PointerProbe.EveryLineIsFresh` | crates/tweb-native-input/src/mac.rs:120-173 | every move and scroll is told with an answer younger than the stale age |
| `PointerProbe.ProbesArePaced` | crates/tweb-native-input/src/wire.rs:67-75 | after the first, a probe that is not forced comes at least the interval after any before it |
| `PointerProbe.MovesArePaced` | crates/tweb-native-input/src/mac.rs:127-136 | moves are told at most once per frame |

## Left out

- Process spawning, sockets, terminals and AppKit: what they return (a listing, a line, a window list, a
  success or failure) is a parameter.
- The daemon: its JSON grammar is a parameter of the pump.
- The URL parser: sites and playbooks start from the host it yields.
- Unicode beyond characters: text is searched by character, which finds what a search of its UTF-8 bytes finds.
- tmux's own treatment of a stored hook beyond double quotes and formats: white space after a newline inside
  quotes. What a format expands to is not modelled, only where there is one.
- SweepRuns.SweepProtocol: a registry entry is a base and a process, not its text, and is there whole or not at
  all; a page is on some terminal or on none; process ids are not used again while a process, or what it
  started, is there.
- SweepHook.HookFormatsIff: formats are read as tmux's manual lists them; a `##` before a `[`, which tmux leaves
  alone, counts as an escape.
- FrameObject.Namespace.WriteFrame: no process dies in the middle of it, and nobody else works on the namespace.
- PaneWriter.Writers.WriterFor: tty paths are taken to be canonical names of devices, and a device stays.
- Hosted.SessionWritesOnlyItsOwn: bytes that arrive together with the daemon's answer are lost with the buffer
  that read it, so the lines of the session are those behind them.
- ImageId.ComputeHash: over bytes; the decimal text of a fallback and the separator are bytes of the identity.
- EngineApp.TargetAbsentOrApp: the tag in the target's name is taken to be one per build, and nobody but these
  processes writes there.
- SettingsDocument.TableObject.Set: the cursor's way down is a recursive call; comments and order are not
  modelled, nor are tables inside arrays.
- Settings.SetThenResolve: a number with a fraction is a real; TOML's infinities and not-a-number are left out.
- Settings.ShownListReadsBackIff: a list whose first entry begins with a bracket depends on the JSON reader,
  which is a parameter.
- Playbook.Directory.WriteIn: a write stops between characters, not inside the bytes of one.
- PointerProbe.EveryLineIsFresh: coordinates and times are real numbers, without rounding.
- Visibility.ParseProbe: the reader of decimal numbers and the learned pixel size are parameters.
- OutputPath.ResolveOutputPath: Unix paths only; a path that is not valid Unicode is not modelled.
- Small branch readings and lookup tables (doctor's checks, agent and MCP tables, clap definitions, rendering):
  they would only add easy members.
