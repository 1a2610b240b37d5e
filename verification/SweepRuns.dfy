/**
 Whole runs of the registry and the sweeps: exactly which ones can leave a page on a terminal that no
 sweep will ever delete, and what a sweep that is let through leaves behind.
 */
module SweepRuns {

  import opened Wrappers
  import opened ImageSweep

  const START := State(map[], map[], map[], {}, map[])

  /** The state after a list of steps; none if one of them was not enabled. */
  ghost function Run(s: State, steps: seq<Step>, bases: Bases): Option<State>
    decreases |steps|
  {
    if steps == [] then Some(s)
    else if !Enabled(s, steps[0]) then None
    else Run(Apply(s, steps[0], bases), steps[1..], bases)
  }

  /** The steps are all enabled in turn, and the guard of each holds. */
  ghost predicate Guarded(s: State, steps: seq<Step>, bases: Bases)
    decreases |steps|
  {
    steps == [] ||
    (Enabled(s, steps[0]) && Guard(s, steps[0]) && Guarded(Apply(s, steps[0], bases), steps[1..], bases))
  }

  lemma {:induction false} RunConcat(s: State, a: seq<Step>, b: seq<Step>, bases: Bases)
    ensures Run(s, a + b, bases) == match Run(s, a, bases) case None => None case Some(m) => Run(m, b, bases)
    ensures Guarded(s, a, bases) && Run(s, a, bases).Some? && Guarded(Run(s, a, bases).value, b, bases) ==>
              Guarded(s, a + b, bases)
    decreases |a|
  {
    hide Enabled, Apply, Guard;
    if a == [] {
      assert a + b == b;
    } else {
      assert (a + b)[1..] == a[1..] + b;
      if Enabled(s, a[0]) {
        RunConcat(Apply(s, a[0], bases), a[1..], b, bases);
      }
    }
  }

  lemma StartIsSafe(bases: Bases)
    ensures Safe(START) && Truthful(START, bases)
  {}

  lemma {:induction false} RunsKeepTruthful(s: State, steps: seq<Step>, bases: Bases)
    requires Truthful(s, bases) && Run(s, steps, bases).Some?
    ensures Truthful(Run(s, steps, bases).value, bases)
    decreases |steps|
  {
    hide Enabled, Apply, Truthful;
    if steps != [] {
      StepKeepsTruthful(s, steps[0], bases);
      RunsKeepTruthful(Apply(s, steps[0], bases), steps[1..], bases);
    }
  }

  lemma {:induction false} GuardedRunsKeepSafe(s: State, steps: seq<Step>, bases: Bases)
    requires Safe(s) && Truthful(s, bases) && Guarded(s, steps, bases)
    ensures Run(s, steps, bases).Some?
    ensures Safe(Run(s, steps, bases).value) && Truthful(Run(s, steps, bases).value, bases)
    decreases |steps|
  {
    hide Enabled, Apply, Guard, Safe, Truthful;
    if steps != [] {
      StepSafeIff(s, steps[0], bases);
      StepKeepsTruthful(s, steps[0], bases);
      GuardedRunsKeepSafe(Apply(s, steps[0], bases), steps[1..], bases);
    }
  }

  /** A page of a pane tmux no longer lists that no registry entry will have swept. */
  ghost predicate Orphaned(s: State, p: Pane) {
    Image(p, true) in s.images && p !in s.panes && p !in s.registry
  }

  /** The sweep protocol's guarantees, in every state of every guarded run: no page is orphaned; a
      pane's process that draws has an entry no other process will drop; for every sweep, what it
      holds for dead was not in its listing; and what a sweep or a frontend is about to remove is
      neither drawn nor shown. */
  lemma SweepProtocol(steps: seq<Step>, bases: Bases)
    requires Guarded(START, steps, bases)
    ensures Run(START, steps, bases).Some?
    ensures var s := Run(START, steps, bases).value;
            && (forall p :: !Orphaned(s, p))
            && (forall p :: DrawsOnRecord(s, p) ==> EntryKept(s, p) && s.registry[p].base == bases(p))
            && (forall id :: id in s.sweeps ==> s.sweeps[id].dead.Keys !! s.sweeps[id].live)
            && (forall id, p :: id in s.sweeps && s.sweeps[id].Removing? && p in s.sweeps[id].left ==>
                  !DrawsOnRecord(s, p) && Image(p, true) !in s.images)
            && (forall pid, p :: pid in s.fronts && s.fronts[pid] == Front(p, Dropping) ==>
                  !DrawsOnRecord(s, p) && Image(p, true) !in s.images)
  {
    StartIsSafe(bases);
    GuardedRunsKeepSafe(START, steps, bases);
    var s := Run(START, steps, bases).value;
    forall id | id in s.sweeps ensures SweepSafe(s, s.sweeps[id]) && SweepTrue(s.sweeps[id], bases) {}
  }

  /** What a sweep has removed stays without entry and page until a frontend records the pane anew. */
  lemma RemovedStaysGone(s: State, step: Step, bases: Bases, p: Pane)
    requires Safe(s) && Enabled(s, step) && Guard(s, step) && p !in s.registry
    requires step.Record? && step.how.Written? ==> s.fronts[step.pid].pane != p
    ensures var s' := Apply(s, step, bases); p !in s'.registry && Image(p, true) !in s'.images
  {
    if step.Draw? {
      assert s.fronts[step.pid] == Front(p, Drawing(true)) ==> DrawsOnRecord(s, p);
    }
  }

  // Where a guard fails.

  /** Going on from here with nothing but guarded steps can orphan a page. */
  ghost predicate Doomed(s: State, bases: Bases) {
    exists steps, p :: Guarded(s, steps, bases) && Run(s, steps, bases).Some? &&
                       Orphaned(Run(s, steps, bases).value, p)
  }

  lemma DoomedNow(s: State, p: Pane, bases: Bases)
    requires Orphaned(s, p)
    ensures Doomed(s, bases)
  {
    assert Guarded(s, [], bases) && Run(s, [], bases) == Some(s);
  }

  lemma DoomedBefore(s: State, step: Step, bases: Bases)
    requires Enabled(s, step) && Guard(s, step) && Doomed(Apply(s, step, bases), bases)
    ensures Doomed(s, bases)
  {
    hide Enabled, Apply, Guard, Orphaned;
    var next := Apply(s, step, bases);
    var steps, p :| Guarded(next, steps, bases) && Run(next, steps, bases).Some? &&
                    Orphaned(Run(next, steps, bases).value, p);
    var all := [step] + steps;
    assert all[0] == step && all[1..] == steps;
    assert Guarded(s, all, bases) && Run(s, all, bases) == Run(next, steps, bases);
  }

  /** A page without an entry: its pane only has to go. */
  lemma UncoveredDooms(s: State, p: Pane, bases: Bases)
    requires Image(p, true) in s.images && p !in s.registry
    ensures Doomed(s, bases)
  {
    hide Doomed;
    if p in s.panes {
      DoomedNow(Apply(s, Close(p), bases), p, bases);
      DoomedBefore(s, Close(p), bases);
    } else {
      DoomedNow(s, p, bases);
    }
  }

  /** A process that draws without an entry: it only has to draw. */
  lemma UnrecordedDooms(s: State, p: Pane, bases: Bases)
    requires DrawsOnRecord(s, p) && p !in s.registry
    ensures Doomed(s, bases)
  {
    hide Doomed;
    var step := Draw(s.panes[p]);
    UncoveredDooms(Apply(s, step, bases), p, bases);
    DoomedBefore(s, step, bases);
  }

  /** A frontend is about to remove the entry of a pane that is drawn, or shown. */
  lemma UnlinkDooms(s: State, p: Pane, q: Pid, bases: Bases)
    requires q in s.fronts && s.fronts[q] == Front(p, Dropping)
    requires DrawsOnRecord(s, p) || Image(p, true) in s.images
    ensures Doomed(s, bases)
  {
    hide Doomed;
    var next := Apply(s, Unlink(q), bases);
    if DrawsOnRecord(s, p) {
      assert DrawsOnRecord(next, p);
      UnrecordedDooms(next, p, bases);
    } else {
      UncoveredDooms(next, p, bases);
    }
    DoomedBefore(s, Unlink(q), bases);
  }

  /** The same, one step earlier: it has not looked yet whether the entry is its own. */
  lemma EndingDropDooms(s: State, p: Pane, q: Pid, bases: Bases)
    requires Truthful(s, bases) && Owns(s, q, p) && q in s.fronts && s.fronts[q] == Front(p, Ending(true))
    requires DrawsOnRecord(s, p) || Image(p, true) in s.images
    ensures Doomed(s, bases)
  {
    hide Doomed;
    assert s.registry[p] == Entry(bases(p), q);
    var next := Apply(s, Drop(q), bases);
    assert next.fronts[q] == Front(p, Dropping) && (DrawsOnRecord(s, p) ==> DrawsOnRecord(next, p));
    UnlinkDooms(next, p, q, bases);
    DoomedBefore(s, Drop(q), bases);
  }

  /** The entry of a drawn pane is another process's, which only has to exit. */
  lemma ForeignEntryDooms(s: State, p: Pane, bases: Bases)
    requires Truthful(s, bases) && DrawsOnRecord(s, p) && !EntryKept(s, p)
    ensures Doomed(s, bases)
  {
    hide Doomed, Truthful;
    if p !in s.registry {
      UnrecordedDooms(s, p, bases);
    } else {
      var q := s.registry[p].pid;
      if s.fronts[q].phase == Ending(true) {
        EndingDropDooms(s, p, q, bases);
      } else {
        var step := DeleteOwn(q, {});
        StepKeepsTruthful(s, step, bases);
        EndingDropDooms(Apply(s, step, bases), p, q, bases);
        DoomedBefore(s, step, bases);
      }
    }
  }

  lemma RemovingDooms(s: State, id: SweepId, p: Pane, bases: Bases)
    requires id in s.sweeps && s.sweeps[id].Removing? && p in s.sweeps[id].left
    requires DrawsOnRecord(s, p) || Image(p, true) in s.images
    ensures Doomed(s, bases)
  {
    hide Doomed;
    var next := Apply(s, Remove(id, p), bases);
    if DrawsOnRecord(s, p) {
      assert DrawsOnRecord(next, p);
      UnrecordedDooms(next, p, bases);
    } else {
      UncoveredDooms(next, p, bases);
    }
    DoomedBefore(s, Remove(id, p), bases);
  }

  lemma ScanningDooms(s: State, id: SweepId, p: Pane, bases: Bases)
    requires id in s.sweeps && s.sweeps[id].Scanning? && DrawsOnRecord(s, p) && p !in s.sweeps[id].live
    ensures Doomed(s, bases)
  {
    hide Doomed;
    if p !in s.registry {
      UnrecordedDooms(s, p, bases);
    } else {
      var scanned := Apply(s, Scan(id, p), bases);
      var cleared := Apply(scanned, Clear(id, {}), bases);
      assert DrawsOnRecord(cleared, p) && p in cleared.sweeps[id].left;
      RemovingDooms(cleared, id, p, bases);
      DoomedBefore(scanned, Clear(id, {}), bases);
      DoomedBefore(s, Scan(id, p), bases);
    }
  }

  /** Safety is exact: a state is safe if and only if no guarded run from it orphans a page. */
  lemma SafeIffNotDoomed(s: State, bases: Bases)
    requires Truthful(s, bases)
    ensures Safe(s) <==> !Doomed(s, bases)
  {
    hide Truthful, Guarded, Run;
    if Safe(s) {
      forall steps, p | Guarded(s, steps, bases) && Run(s, steps, bases).Some?
        ensures !Orphaned(Run(s, steps, bases).value, p)
      {
        GuardedRunsKeepSafe(s, steps, bases);
      }
    } else if !Covered(s) {
      var p :| Image(p, true) in s.images && p !in s.registry;
      UncoveredDooms(s, p, bases);
    } else if !EntriesKept(s) {
      var p :| DrawsOnRecord(s, p) && !EntryKept(s, p);
      ForeignEntryDooms(s, p, bases);
    } else if !DropsSafe(s) {
      var pid :| pid in s.fronts && s.fronts[pid].phase == Ending(true) && Owns(s, pid, s.fronts[pid].pane) &&
                 Image(s.fronts[pid].pane, true) in s.images;
      EndingDropDooms(s, s.fronts[pid].pane, pid, bases);
    } else if !UnlinksSafe(s) {
      var pid :| pid in s.fronts && s.fronts[pid].phase.Dropping? &&
                 (DrawsOnRecord(s, s.fronts[pid].pane) || Image(s.fronts[pid].pane, true) in s.images);
      UnlinkDooms(s, s.fronts[pid].pane, pid, bases);
    } else {
      var id :| id in s.sweeps && !SweepSafe(s, s.sweeps[id]);
      match s.sweeps[id]
      case Scanning(live, _) =>
        var p :| DrawsOnRecord(s, p) && p !in live;
        ScanningDooms(s, id, p, bases);
      case Removing(_, _, left) =>
        var p :| p in left && (DrawsOnRecord(s, p) || Image(p, true) in s.images);
        RemovingDooms(s, id, p, bases);
    }
  }

  /** A run of the whole system in which every guard held so far. */
  ghost predicate Reached(s: State, bases: Bases) {
    exists steps :: Guarded(START, steps, bases) && Run(START, steps, bases) == Some(s)
  }

  /** The guards are exact: after any guarded run, the next step can lead to an orphan, through
      guarded steps alone, if and only if its guard fails. */
  lemma GuardsAreExact(s: State, step: Step, bases: Bases)
    requires Reached(s, bases) && Enabled(s, step)
    ensures Doomed(Apply(s, step, bases), bases) <==> !Guard(s, step)
  {
    hide Safe, Truthful, Doomed, Guard, Apply, Enabled;
    var steps :| Guarded(START, steps, bases) && Run(START, steps, bases) == Some(s);
    StartIsSafe(bases);
    GuardedRunsKeepSafe(START, steps, bases);
    StepSafeIff(s, step, bases);
    StepKeepsTruthful(s, step, bases);
    SafeIffNotDoomed(Apply(s, step, bases), bases);
  }

  lemma ReachedStart(bases: Bases)
    ensures Reached(START, bases)
  {
    assert Guarded(START, [], bases) && Run(START, [], bases) == Some(START);
  }

  lemma ReachedNext(s: State, step: Step, bases: Bases)
    requires Reached(s, bases) && Enabled(s, step) && Guard(s, step)
    ensures Reached(Apply(s, step, bases), bases)
  {
    hide Enabled, Apply, Guard;
    var steps :| Guarded(START, steps, bases) && Run(START, steps, bases) == Some(s);
    var one := [step];
    assert one[1..] == [];
    assert Guarded(Apply(s, step, bases), [], bases) && Run(Apply(s, step, bases), [], bases) == Some(Apply(s, step, bases));
    assert Guarded(s, one, bases) && Run(s, one, bases) == Some(Apply(s, step, bases));
    RunConcat(START, steps, one, bases);
    assert Guarded(START, steps + one, bases);
  }

  /** After some guarded run this step is possible, its guard fails, and a page can be orphaned. */
  ghost predicate CanOrphan(step: Step, bases: Bases) {
    exists s :: Reached(s, bases) && Enabled(s, step) && !Guard(s, step) && Doomed(Apply(s, step, bases), bases)
  }

  lemma GuardNeeded(s: State, step: Step, bases: Bases)
    requires Reached(s, bases) && Enabled(s, step) && !Guard(s, step)
    ensures CanOrphan(step, bases)
  {
    GuardsAreExact(s, step, bases);
  }

  /** A pane whose frontend has recorded it and drawn. */
  function Drawn(p: Pane, bases: Bases): State {
    State(map[p := 7], map[7 := Front(p, Drawing(true))], map[p := Entry(bases(p), 7)], {Image(p, true)}, map[])
  }

  lemma ReachedDrawn(p: Pane, bases: Bases)
    ensures Reached(Drawn(p, bases), bases)
  {
    hide Reached;
    ReachedStart(bases);
    ReachedNext(START, Open(p, 7), bases);
    var begun := State(map[p := 7], map[7 := Front(p, Starting)], map[], {}, map[]);
    assert Apply(START, Open(p, 7), bases) == begun;
    ReachedNext(begun, Record(7, Written), bases);
    var recorded := Drawn(p, bases).(images := {});
    assert Apply(begun, Record(7, Written), bases) == recorded;
    ReachedNext(recorded, Draw(7), bases);
    assert Apply(recorded, Draw(7), bases) == Drawn(p, bases);
  }

  /** The same pane when its frontend has deleted its page. */
  function Ended(p: Pane, bases: Bases): State {
    State(map[p := 7], map[7 := Front(p, Ending(true))], map[p := Entry(bases(p), 7)], {}, map[])
  }

  lemma ReachedEnding(p: Pane, bases: Bases)
    ensures Reached(Ended(p, bases), bases)
  {
    hide Reached;
    ReachedDrawn(p, bases);
    ReachedNext(Drawn(p, bases), DeleteOwn(7, {}), bases);
    assert Apply(Drawn(p, bases), DeleteOwn(7, {}), bases) == Ended(p, bases);
  }

  /** The same pane when its frontend was killed and another process begun in it. */
  function TakenOver(p: Pane, bases: Bases): State {
    State(map[p := 8], map[7 := Front(p, Left(true)), 8 := Front(p, Starting)], map[p := Entry(bases(p), 7)],
          {Image(p, true)}, map[])
  }

  lemma ReachedTakenOver(p: Pane, bases: Bases)
    ensures Reached(TakenOver(p, bases), bases)
  {
    hide Reached;
    ReachedDrawn(p, bases);
    ReachedNext(Drawn(p, bases), Kill(7), bases);
    var killed := Apply(Drawn(p, bases), Kill(7), bases);
    ReachedNext(killed, Respawn(p, 8), bases);
    assert Apply(killed, Respawn(p, 8), bases) == TakenOver(p, bases);
  }

  /** Every guard can fail: a pane begun between a sweep's listing and its scan is recorded. */
  lemma RecordDuringSweepOrphans(bases: Bases)
    ensures CanOrphan(Record(7, Written), bases)
  {
    hide Reached, Doomed, CanOrphan;
    ReachedStart(bases);
    ReachedNext(START, List(0), bases);
    var listed := Apply(START, List(0), bases);
    ReachedNext(listed, Open(1, 7), bases);
    var begun := Apply(listed, Open(1, 7), bases);
    assert !SweepsSpare(begun, 1);
    GuardNeeded(begun, Record(7, Written), bases);
  }

  /** After a respawn, the old process records its pane over its successor's entry, which it
      will take with it when it exits. */
  lemma LateRecordOrphans(bases: Bases)
    ensures CanOrphan(Record(7, Written), bases)
  {
    hide Reached, Doomed, CanOrphan;
    ReachedStart(bases);
    ReachedNext(START, Open(1, 7), bases);
    var begun := Apply(START, Open(1, 7), bases);
    ReachedNext(begun, Respawn(1, 8), bases);
    var respawned := Apply(begun, Respawn(1, 8), bases);
    ReachedNext(respawned, Record(8, Written), bases);
    var recorded := Apply(respawned, Record(8, Written), bases);
    assert DrawsOnRecord(recorded, 1) && !Occupies(recorded, 7);
    GuardNeeded(recorded, Record(7, Written), bases);
  }

  /** A frontend that exits normally after tmux took its pane away reaches no terminal. */
  lemma LateTeardownOrphans(bases: Bases)
    ensures CanOrphan(DeleteOwn(7, {}), bases)
  {
    hide Reached, Doomed, CanOrphan;
    ReachedDrawn(1, bases);
    ReachedNext(Drawn(1, bases), Close(1), bases);
    var closed := Apply(Drawn(1, bases), Close(1), bases);
    assert Owns(closed, 7, 1) && 1 !in closed.panes;
    GuardNeeded(closed, DeleteOwn(7, {}), bases);
  }

  /** A frame that its pump still writes after the frontend has deleted its page: the entry goes, and
      the page stays. */
  lemma LateFrameOrphans(bases: Bases)
    ensures CanOrphan(Draw(7), bases)
  {
    hide Reached, Doomed, CanOrphan;
    ReachedEnding(1, bases);
    assert Occupies(Ended(1, bases), 7) && !EntryStays(Ended(1, bases), 1);
    GuardNeeded(Ended(1, bases), Draw(7), bases);
  }

  /** A frontend that reads its own entry, and removes it after another has recorded the pane. */
  lemma RecordDuringDropOrphans(bases: Bases)
    ensures CanOrphan(Record(8, Written), bases)
  {
    hide Reached, Doomed, CanOrphan;
    ReachedEnding(1, bases);
    ReachedNext(Ended(1, bases), Respawn(1, 8), bases);
    var respawned := Apply(Ended(1, bases), Respawn(1, 8), bases);
    ReachedNext(respawned, Drop(7), bases);
    var dropping := Apply(respawned, Drop(7), bases);
    assert dropping.fronts[7] == Front(1, Dropping);
    GuardNeeded(dropping, Record(8, Written), bases);
  }

  /** A frontend takes over a killed one's page, and its recording breaks off: the entry is lost. */
  lemma DamagedRecordOrphans(bases: Bases)
    ensures CanOrphan(Record(8, Damaged), bases)
  {
    hide Reached, Doomed, CanOrphan;
    ReachedTakenOver(1, bases);
    GuardNeeded(TakenOver(1, bases), Record(8, Damaged), bases);
  }

  /** Or it is recorded and then cannot start an engine: it drops the entry without a delete. */
  lemma GivenUpOrphans(bases: Bases)
    ensures CanOrphan(GiveUp(8), bases)
  {
    hide Reached, Doomed, CanOrphan;
    ReachedTakenOver(1, bases);
    ReachedNext(TakenOver(1, bases), Record(8, Written), bases);
    var recorded := Apply(TakenOver(1, bases), Record(8, Written), bases);
    assert Owns(recorded, 8, 1);
    GuardNeeded(recorded, GiveUp(8), bases);
  }

  /** A frontend that goes back to the daemon after an older process has recorded the pane as its own. */
  lemma ResumeOrphans(bases: Bases)
    ensures CanOrphan(Resume(8), bases)
  {
    hide Reached, Doomed, CanOrphan;
    ReachedStart(bases);
    ReachedNext(START, Open(1, 7), bases);
    var begun := Apply(START, Open(1, 7), bases);
    ReachedNext(begun, Respawn(1, 8), bases);
    var respawned := Apply(begun, Respawn(1, 8), bases);
    ReachedNext(respawned, Record(8, Written), bases);
    var recorded := Apply(respawned, Record(8, Written), bases);
    ReachedNext(recorded, DeleteOwn(8, {}), bases);
    var ended := Apply(recorded, DeleteOwn(8, {}), bases);
    assert !DrawsOnRecord(ended, 1);
    ReachedNext(ended, Record(7, Written), bases);
    var overtaken := Apply(ended, Record(7, Written), bases);
    assert WillDrop(overtaken, 7, 1) && Occupies(overtaken, 8) && !EntryKept(overtaken, 1);
    GuardNeeded(overtaken, Resume(8), bases);
  }

  /** A frontend's own delete is lost although its pane is listed. */
  lemma LostTeardownOrphans(bases: Bases)
    ensures CanOrphan(DeleteOwn(7, {Image(1, true)}), bases)
  {
    hide Reached, Doomed, CanOrphan;
    ReachedDrawn(1, bases);
    assert Owns(Drawn(1, bases), 7, 1);
    GuardNeeded(Drawn(1, bases), DeleteOwn(7, {Image(1, true)}), bases);
  }

  /** A sweep's delete is lost, for no client was listed or none could be written to, and the
      sweep goes on to remove the entry. */
  lemma LostSweepDeleteOrphans(bases: Bases)
    ensures CanOrphan(Clear(0, {Image(1, true)}), bases)
  {
    hide Reached, Doomed, CanOrphan;
    ReachedDrawn(1, bases);
    ReachedNext(Drawn(1, bases), Close(1), bases);
    var closed := Apply(Drawn(1, bases), Close(1), bases);
    ReachedNext(closed, List(0), bases);
    var listed := Apply(closed, List(0), bases);
    ReachedNext(listed, Scan(0, 1), bases);
    var scanned := Apply(listed, Scan(0, 1), bases);
    assert 1 in scanned.sweeps[0].dead && Image(1, true) in scanned.images;
    GuardNeeded(scanned, Clear(0, {Image(1, true)}), bases);
  }

  // A sweep that is let through.

  /** What `dead_entries` finds: the recorded panes a listing does not have, with their bases. */
  function DeadEntries(registry: map<Pane, Entry>, live: set<Pane>): map<Pane, int> {
    map p | p in registry && p !in live :: registry[p].base
  }

  function EntryBases(registry: map<Pane, Entry>, found: seq<Pane>): map<Pane, int> {
    map p | p in found && p in registry :: registry[p].base
  }

  function Scans(id: SweepId, found: seq<Pane>): seq<Step> {
    seq(|found|, i requires 0 <= i < |found| => Scan(id, found[i]))
  }

  function Removes(id: SweepId, found: seq<Pane>): seq<Step> {
    seq(|found|, i requires 0 <= i < |found| => Remove(id, found[i]))
  }

  /** One call of `run`: the listing, every entry it does not have in whatever order the directory
      gives them, the deletes, the removals. */
  function WholeSweep(id: SweepId, found: seq<Pane>, lost: set<Image>): seq<Step> {
    [List(id)] + Scans(id, found) + [Clear(id, lost)] + Removes(id, found)
  }

  lemma ScanNext(s: State, id: SweepId, p: Pane, bases: Bases)
    requires id in s.sweeps && s.sweeps[id].Scanning? && p in s.registry && p !in s.sweeps[id].live
    ensures Enabled(s, Scan(id, p))
    ensures var Scanning(live, dead) := s.sweeps[id];
            Apply(s, Scan(id, p), bases) == s.(sweeps := s.sweeps[id := Scanning(live, dead[p := s.registry[p].base])])
  {}

  lemma {:induction false} RunScans(s: State, id: SweepId, found: seq<Pane>, bases: Bases)
    requires id in s.sweeps && s.sweeps[id].Scanning?
    requires forall i :: 0 <= i < |found| ==> found[i] in s.registry && found[i] !in s.sweeps[id].live
    ensures var dead := s.sweeps[id].dead + EntryBases(s.registry, found);
            Run(s, Scans(id, found), bases) == Some(s.(sweeps := s.sweeps[id := Scanning(s.sweeps[id].live, dead)]))
    decreases |found|
  {
    hide Enabled, Apply;
    if found == [] {
      assert s.sweeps[id].dead + EntryBases(s.registry, found) == s.sweeps[id].dead;
      assert s.(sweeps := s.sweeps[id := s.sweeps[id]]) == s;
    } else {
      ScanNext(s, id, found[0], bases);
      var next := Apply(s, Scan(id, found[0]), bases);
      assert Scans(id, found)[1..] == Scans(id, found[1..]);
      RunScans(next, id, found[1..], bases);
      assert next.sweeps[id].dead + EntryBases(s.registry, found[1..])
          == s.sweeps[id].dead + EntryBases(s.registry, found);
      var dead := s.sweeps[id].dead + EntryBases(s.registry, found);
      assert next.sweeps[id := Scanning(s.sweeps[id].live, dead)] == s.sweeps[id := Scanning(s.sweeps[id].live, dead)];
    }
  }

  ghost predicate Distinct(found: seq<Pane>) {
    forall i, j :: 0 <= i < j < |found| ==> found[i] != found[j]
  }

  lemma RemoveNext(s: State, id: SweepId, p: Pane, bases: Bases)
    requires id in s.sweeps && s.sweeps[id].Removing? && p in s.sweeps[id].left
    ensures Enabled(s, Remove(id, p))
    ensures Apply(s, Remove(id, p), bases)
         == s.(registry := s.registry - {p}, sweeps := s.sweeps[id := s.sweeps[id].(left := s.sweeps[id].left - {p})])
  {}

  lemma {:induction false} RunRemoves(s: State, id: SweepId, found: seq<Pane>, bases: Bases)
    requires id in s.sweeps && s.sweeps[id].Removing? && Distinct(found)
    requires forall i :: 0 <= i < |found| ==> found[i] in s.sweeps[id].left
    ensures var gone := set p | p in found;
            Run(s, Removes(id, found), bases)
              == Some(s.(registry := s.registry - gone,
                         sweeps := s.sweeps[id := s.sweeps[id].(left := s.sweeps[id].left - gone)]))
    decreases |found|
  {
    hide Enabled, Apply;
    var gone := set p | p in found;
    if found == [] {
      assert s.registry - gone == s.registry && s.sweeps[id].left - gone == s.sweeps[id].left;
      assert s.(sweeps := s.sweeps[id := s.sweeps[id]]) == s;
    } else {
      RemoveNext(s, id, found[0], bases);
      var next := Apply(s, Remove(id, found[0]), bases);
      assert Removes(id, found)[1..] == Removes(id, found[1..]);
      RunRemoves(next, id, found[1..], bases);
      var rest := set p | p in found[1..];
      assert s.registry - {found[0]} - rest == s.registry - gone;
      assert s.sweeps[id].left - {found[0]} - rest == s.sweeps[id].left - gone;
      var done := s.sweeps[id].(left := s.sweeps[id].left - gone);
      assert next.sweeps[id := done] == s.sweeps[id := done];
    }
  }

  lemma ListNext(s: State, id: SweepId, bases: Bases)
    requires id !in s.sweeps
    ensures Enabled(s, List(id))
    ensures Apply(s, List(id), bases) == s.(sweeps := s.sweeps[id := Scanning(s.panes.Keys, map[])])
  {}

  /** From the listing to the last scan: what the sweep holds for dead is exactly what `dead_entries`
      finds. */
  lemma ListedAndScanned(s: State, id: SweepId, found: seq<Pane>, bases: Bases)
    requires id !in s.sweeps
    requires forall p :: p in found <==> p in s.registry && p !in s.panes
    ensures Run(s, [List(id)] + Scans(id, found), bases)
         == Some(s.(sweeps := s.sweeps[id := Scanning(s.panes.Keys, DeadEntries(s.registry, s.panes.Keys))]))
  {
    ListNext(s, id, bases);
    hide Enabled, Apply;
    var listed := Apply(s, List(id), bases);
    assert ([List(id)] + Scans(id, found))[1..] == Scans(id, found);
    RunScans(listed, id, found, bases);
    var dead := DeadEntries(s.registry, s.panes.Keys);
    assert map[] + EntryBases(s.registry, found) == dead;
    assert listed.sweeps[id := Scanning(s.panes.Keys, dead)] == s.sweeps[id := Scanning(s.panes.Keys, dead)];
  }

  /** A sweep sweeps: let through from any safe state, it leaves neither a recorded page nor an entry
      of a pane that is not listed, and it touches no entry of one that is. */
  lemma SweepSweeps(s: State, id: SweepId, found: seq<Pane>, lost: set<Image>, bases: Bases)
    requires Safe(s) && Truthful(s, bases) && id !in s.sweeps
    requires Distinct(found) && forall p :: p in found <==> p in s.registry && p !in s.panes
    requires forall p :: p in found && Image(p, true) in s.images ==> Image(p, true) !in lost
    ensures Run(s, WholeSweep(id, found, lost), bases).Some?
    ensures var s' := Run(s, WholeSweep(id, found, lost), bases).value;
            && s'.panes == s.panes && s'.fronts == s.fronts
            && (forall p :: p !in s.panes ==> Image(p, true) !in s'.images && p !in s'.registry)
            && (forall p :: p in s.panes ==> (p in s'.registry <==> p in s.registry))
            && (forall p :: p in s'.registry ==> s'.registry[p] == s.registry[p])
  {
    hide Safe, Truthful;
    ListedAndScanned(s, id, found, bases);
    var dead := DeadEntries(s.registry, s.panes.Keys);
    var scanned := s.(sweeps := s.sweeps[id := Scanning(s.panes.Keys, dead)]);
    var cleared := Apply(scanned, Clear(id, lost), bases);
    RunRemoves(cleared, id, found, bases);
    var a, b, c := [List(id)] + Scans(id, found), [Clear(id, lost)], Removes(id, found);
    assert b[1..] == [];
    RunConcat(s, a, b, bases);
    RunConcat(s, a + b, c, bases);
    ClearedPages(s, dead, lost, bases);
  }

  lemma ClearedPages(s: State, dead: map<Pane, int>, lost: set<Image>, bases: Bases)
    requires Safe(s) && Truthful(s, bases) && dead == DeadEntries(s.registry, s.panes.Keys)
    requires forall p :: p in dead && Image(p, true) in s.images ==> Image(p, true) !in lost
    ensures forall p :: p !in s.panes ==> Image(p, true) !in Without(s.images, bases, dead.Values, lost)
  {
    forall p | p !in s.panes && Image(p, true) in s.images ensures p in dead && bases(p) in dead.Values {
      assert p in s.registry;
      assert dead[p] in dead.Values;
    }
  }
}
