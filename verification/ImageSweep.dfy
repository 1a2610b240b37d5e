/**
 The registry of the images panes own, and the sweep that deletes the images of panes tmux no longer
 lists. Frontends, tmux and any number of sweeps run concurrently, and any delete can get lost on its
 way to a terminal; every interleaving of the steps below is a run.
 */
module ImageSweep {

  /** A pane by the number in its tmux id, which names its registry file too. */
  type Pane = nat
  type Pid = nat
  type SweepId = nat

  /** The first image id of each pane's pool; two panes can share one. */
  type Bases = Pane -> int

  datatype Entry = Entry(base: int, pid: Pid)

  /** A frontend: before it records its pane, while it is there to draw, after it tried to delete its
      own image or gave up, once it has found its own entry and is about to remove it, and when it is
      done with the registry or was killed. What it started, the pump of a hosted page or an engine,
      can outlast its work and go on drawing. Recording can fail, and then it draws without an entry. */
  datatype Phase = Starting | Drawing(recorded: bool) | Ending(recorded: bool) | Dropping | Left(recorded: bool)

  predicate OnRecord(phase: Phase) {
    match phase
    case Starting => false
    case Dropping => true
    case Drawing(recorded) => recorded
    case Ending(recorded) => recorded
    case Left(recorded) => recorded
  }

  datatype Front = Front(pane: Pane, phase: Phase)

  /** A page on the terminals, as long as one of them shows it: whose it is, and whether the frontend
      that drew it was recorded. */
  datatype Image = Image(pane: Pane, recorded: bool)

  /** A sweep holds the panes tmux listed; it reads entries, then deletes their images, then removes
      their files one by one. */
  datatype Sweep =
    | Scanning(live: set<Pane>, dead: map<Pane, int>)
    | Removing(live: set<Pane>, dead: map<Pane, int>, left: set<Pane>)

  datatype State = State(
    panes: map<Pane, Pid>,      // what tmux lists, with the process it runs in each
    fronts: map<Pid, Front>,
    registry: map<Pane, Entry>,
    images: set<Image>,
    sweeps: map<SweepId, Sweep>)

  /** How writing the entry ends: it can fail before the file is opened, or after, and then what it
      held before is lost. */
  datatype Recording = Written | Refused | Damaged

  /** `lost` is where a delete does not arrive: no client was listed, a tty did not open, a write
      failed. Nobody is told. */
  datatype Step =
    | Open(pane: Pane, pid: Pid)     // a new pane
    | Respawn(pane: Pane, pid: Pid)  // a new process in a pane; the old one may still be there
    | Close(pane: Pane)              // tmux stops listing it; its process may still be there
    | Record(pid: Pid, how: Recording)
    | Draw(pid: Pid)
    | DeleteOwn(pid: Pid, lost: set<Image>)
    | Resume(pid: Pid)               // back to the daemon, or to an engine of its own
    | GiveUp(pid: Pid)               // no engine can be started: it leaves without a delete
    | Drop(pid: Pid)                 // it reads its entry, to see whether it is its own
    | Unlink(pid: Pid)               // and if so removes it
    | Kill(pid: Pid)
    | Gone(pid: Pid)                 // the last of what it started
    | List(id: SweepId)
    | Scan(id: SweepId, entry: Pane)
    | Clear(id: SweepId, lost: set<Image>)
    | Remove(id: SweepId, entry: Pane)
    | EndSweep(id: SweepId)          // it is done, or it dies
    | Vanish(gone: set<Image>)       // a terminal closes, or who was deleting died on the way

  ghost predicate Enabled(s: State, step: Step) {
    match step
    case Open(p, pid) => p !in s.panes && pid !in s.fronts
    case Respawn(p, pid) => p in s.panes && pid !in s.fronts
    case Close(p) => p in s.panes
    case Record(pid, _) => pid in s.fronts && s.fronts[pid].phase == Starting
    // A pane's pty is its current process's alone, and gone with the pane.
    case Draw(pid) => pid in s.fronts && !s.fronts[pid].phase.Starting? && Occupies(s, pid)
    case DeleteOwn(pid, _) => pid in s.fronts && s.fronts[pid].phase.Drawing?
    case Resume(pid) => pid in s.fronts && s.fronts[pid].phase.Ending?
    case GiveUp(pid) => pid in s.fronts && s.fronts[pid].phase.Drawing?
    case Drop(pid) => pid in s.fronts && s.fronts[pid].phase.Ending?
    case Unlink(pid) => pid in s.fronts && s.fronts[pid].phase.Dropping?
    case Kill(pid) => pid in s.fronts && !s.fronts[pid].phase.Left?
    case Gone(pid) => pid in s.fronts && s.fronts[pid].phase.Left?
    case List(id) => id !in s.sweeps
    case Scan(id, p) =>
      id in s.sweeps && s.sweeps[id].Scanning? && p in s.registry && p !in s.sweeps[id].live
    case Clear(id, _) => id in s.sweeps && s.sweeps[id].Scanning?
    case Remove(id, p) => id in s.sweeps && s.sweeps[id].Removing? && p in s.sweeps[id].left
    case EndSweep(id) => id in s.sweeps
    case Vanish(_) => true
  }

  ghost predicate Occupies(s: State, pid: Pid)
    requires pid in s.fronts
  {
    var p := s.fronts[pid].pane;
    p in s.panes && s.panes[p] == pid
  }

  /** The pages that stay when the ids of some pools are deleted from the terminals. */
  ghost function Without(images: set<Image>, bases: Bases, deleted: set<int>, lost: set<Image>): set<Image> {
    set i | i in images && (bases(i.pane) !in deleted || i in lost)
  }

  /** The process's own entry, as it compares it before it removes the file. */
  ghost predicate Owns(s: State, pid: Pid, p: Pane) {
    p in s.registry && s.registry[p].pid == pid
  }

  ghost function Apply(s: State, step: Step, bases: Bases): State
    requires Enabled(s, step)
  {
    match step
    case Open(p, pid) => s.(panes := s.panes[p := pid], fronts := s.fronts[pid := Front(p, Starting)])
    case Respawn(p, pid) => s.(panes := s.panes[p := pid], fronts := s.fronts[pid := Front(p, Starting)])
    case Close(p) => s.(panes := s.panes - {p})
    case Record(pid, how) =>
      var p := s.fronts[pid].pane;
      s.(fronts := s.fronts[pid := Front(p, Drawing(how.Written?))],
         registry := match how
                     case Written => s.registry[p := Entry(bases(p), pid)]
                     case Refused => s.registry
                     case Damaged => s.registry - {p})
    case Draw(pid) =>
      var front := s.fronts[pid];
      s.(images := s.images + {Image(front.pane, OnRecord(front.phase))})
    case DeleteOwn(pid, lost) =>
      // Through the pane's pty and the clients showing it: both are gone with the pane.
      var front := s.fronts[pid];
      s.(fronts := s.fronts[pid := Front(front.pane, Ending(front.phase.recorded))],
         images := if front.pane in s.panes then Without(s.images, bases, {bases(front.pane)}, lost) else s.images)
    case Resume(pid) =>
      var front := s.fronts[pid];
      s.(fronts := s.fronts[pid := Front(front.pane, Drawing(front.phase.recorded))])
    case GiveUp(pid) =>
      var front := s.fronts[pid];
      s.(fronts := s.fronts[pid := Front(front.pane, Ending(front.phase.recorded))])
    case Drop(pid) =>
      var Front(p, phase) := s.fronts[pid];
      var own := phase.recorded && p in s.registry && s.registry[p] == Entry(bases(p), pid);
      s.(fronts := s.fronts[pid := Front(p, if own then Dropping else Left(phase.recorded))])
    case Unlink(pid) =>
      var p := s.fronts[pid].pane;
      s.(fronts := s.fronts[pid := Front(p, Left(true))], registry := s.registry - {p})
    case Kill(pid) =>
      var front := s.fronts[pid];
      s.(fronts := s.fronts[pid := Front(front.pane, Left(OnRecord(front.phase)))])
    case Gone(pid) => s.(fronts := s.fronts - {pid})
    case List(id) => s.(sweeps := s.sweeps[id := Scanning(s.panes.Keys, map[])])
    case Scan(id, p) =>
      var sweep := s.sweeps[id];
      s.(sweeps := s.sweeps[id := sweep.(dead := sweep.dead[p := s.registry[p].base])])
    case Clear(id, lost) =>
      var sweep := s.sweeps[id];
      s.(images := Without(s.images, bases, sweep.dead.Values, lost),
         sweeps := s.sweeps[id := Removing(sweep.live, sweep.dead, sweep.dead.Keys)])
    case Remove(id, p) =>
      var sweep := s.sweeps[id];
      s.(registry := s.registry - {p}, sweeps := s.sweeps[id := sweep.(left := sweep.left - {p})])
    case EndSweep(id) => s.(sweeps := s.sweeps - {id})
    case Vanish(gone) => s.(images := s.images - gone)
  }

  // What every run keeps.

  ghost predicate SweepTrue(sweep: Sweep, bases: Bases) {
    && (forall p :: p in sweep.dead ==> p !in sweep.live && sweep.dead[p] == bases(p))
    && (sweep.Removing? ==> sweep.left <= sweep.dead.Keys)
  }

  /** Entries and sweeps tell each pane's own base, and a sweep holds for dead only what its listing
      did not have. */
  ghost predicate Truthful(s: State, bases: Bases) {
    && (forall p :: p in s.registry ==> s.registry[p].base == bases(p))
    && (forall id :: id in s.sweeps ==> SweepTrue(s.sweeps[id], bases))
  }

  lemma StepKeepsTruthful(s: State, step: Step, bases: Bases)
    requires Truthful(s, bases) && Enabled(s, step)
    ensures Truthful(Apply(s, step, bases), bases)
  {}

  // What keeps pages from being orphaned.

  /** A pane's process that draws on record. */
  ghost predicate DrawsOnRecord(s: State, p: Pane) {
    p in s.panes && s.panes[p] in s.fronts && s.fronts[s.panes[p]] == Front(p, Drawing(true))
  }

  /** What a frontend's own delete takes: the pages of its pool, its own and any other's, where the delete
      arrives, and nothing when its pane is gone. */
  lemma OwnDeleteSparesIff(s: State, pid: Pid, lost: set<Image>, bases: Bases, image: Image)
    requires Enabled(s, DeleteOwn(pid, lost)) && image in s.images
    ensures var p := s.fronts[pid].pane;
            image !in Apply(s, DeleteOwn(pid, lost), bases).images <==>
            p in s.panes && image !in lost && bases(image.pane) == bases(p)
  {}

  /** Every page a recorded frontend drew is on record. */
  ghost predicate Covered(s: State) {
    forall p :: Image(p, true) in s.images ==> p in s.registry
  }

  /** A process that is still there and will drop a pane's entry when it exits, if it is its own. */
  ghost predicate WillDrop(s: State, pid: Pid, p: Pane) {
    pid in s.fronts && s.fronts[pid] in {Front(p, Drawing(true)), Front(p, Ending(true))}
  }

  /** The entry of a pane that is drawn is not another process's to drop. */
  ghost predicate EntryKept(s: State, p: Pane)
    requires p in s.panes
  {
    p in s.registry && (s.registry[p].pid == s.panes[p] || !WillDrop(s, s.registry[p].pid, p))
  }

  ghost predicate EntriesKept(s: State) {
    forall p :: DrawsOnRecord(s, p) ==> EntryKept(s, p)
  }

  /** A frontend about to drop its own entry has left no page. */
  ghost predicate DropsSafe(s: State) {
    forall pid :: pid in s.fronts && s.fronts[pid].phase == Ending(true) && Owns(s, pid, s.fronts[pid].pane) ==>
                    Image(s.fronts[pid].pane, true) !in s.images
  }

  /** Nobody is about to remove a pane's entry on the strength of what it held before. */
  ghost predicate NobodyUnlinks(s: State, p: Pane) {
    forall pid :: pid in s.fronts ==> s.fronts[pid] != Front(p, Dropping)
  }

  /** What a frontend is about to remove belongs to a pane that is neither drawn nor shown. */
  ghost predicate UnlinksSafe(s: State) {
    forall pid :: pid in s.fronts && s.fronts[pid].phase.Dropping? ==>
                    !DrawsOnRecord(s, s.fronts[pid].pane) && Image(s.fronts[pid].pane, true) !in s.images
  }

  /** While a sweep scans it listed every pane that is drawn; once it removes, what it has left to
      remove is neither drawn nor shown. */
  ghost predicate SweepSafe(s: State, sweep: Sweep) {
    match sweep
    case Scanning(live, _) => forall p :: DrawsOnRecord(s, p) ==> p in live
    case Removing(_, _, left) => forall p :: p in left ==> !DrawsOnRecord(s, p) && Image(p, true) !in s.images
  }

  ghost predicate SweepsSafe(s: State) {
    forall id :: id in s.sweeps ==> SweepSafe(s, s.sweeps[id])
  }

  ghost predicate Safe(s: State) {
    Covered(s) && EntriesKept(s) && DropsSafe(s) && UnlinksSafe(s) && SweepsSafe(s)
  }

  /** The sweeps under way leave a pane alone that is about to be drawn. */
  ghost predicate SweepsSpare(s: State, p: Pane) {
    forall id :: id in s.sweeps ==>
                   match s.sweeps[id]
                   case Scanning(live, _) => p in live
                   case Removing(_, _, left) => p !in left
  }

  /** A pane's entry is there, and nobody who might remove it has got so far that a page drawn now
      would not stop it. */
  ghost predicate EntryStays(s: State, p: Pane) {
    && p in s.registry
    && (s.registry[p].pid in s.fronts ==> s.fronts[s.registry[p].pid] != Front(p, Ending(true)))
    && NobodyUnlinks(s, p)
    && forall id :: id in s.sweeps && s.sweeps[id].Removing? ==> p !in s.sweeps[id].left
  }

  /** What has to hold when a frontend records its pane, when a page is drawn that its frontend no
      longer expects, when a frontend deletes its own page, begins anew or gives up, and when a sweep
      deletes what it found. Nothing is asked of any other step. */
  ghost predicate Guard(s: State, step: Step)
    requires Enabled(s, step)
  {
    match step
    case Record(pid, how) =>
      var p := s.fronts[pid].pane;
      (match how
       case Written =>
         if Occupies(s, pid) then SweepsSpare(s, p) && NobodyUnlinks(s, p) else !DrawsOnRecord(s, p)
       case Refused => true
       case Damaged => !DrawsOnRecord(s, p) && Image(p, true) !in s.images)
    case Draw(pid) =>
      var Front(p, phase) := s.fronts[pid];
      OnRecord(phase) && !phase.Drawing? ==> EntryStays(s, p)
    case DeleteOwn(pid, lost) =>
      var Front(p, phase) := s.fronts[pid];
      phase.recorded && Owns(s, pid, p) && Image(p, true) in s.images ==> p in s.panes && Image(p, true) !in lost
    case Resume(pid) =>
      var Front(p, phase) := s.fronts[pid];
      phase.recorded && Occupies(s, pid) ==> EntryKept(s, p) && SweepsSpare(s, p) && NobodyUnlinks(s, p)
    case GiveUp(pid) =>
      var Front(p, phase) := s.fronts[pid];
      phase.recorded && Owns(s, pid, p) ==> Image(p, true) !in s.images
    case Clear(id, lost) =>
      forall p :: p in s.sweeps[id].dead && Image(p, true) in s.images ==> Image(p, true) !in lost
    case _ => true
  }

  /** A step that leaves registry and pages, and begins no drawing, ending, removal or sweep. */
  lemma QuietStep(s: State, s': State)
    requires Safe(s) && s'.registry == s.registry && s'.images <= s.images && s'.sweeps == s.sweeps
    requires forall p :: DrawsOnRecord(s', p) ==> DrawsOnRecord(s, p) && s'.panes[p] == s.panes[p]
    requires forall pid, p :: WillDrop(s', pid, p) ==> WillDrop(s, pid, p)
    requires forall pid :: pid in s'.fronts && s'.fronts[pid].phase in {Ending(true), Dropping} ==>
                             pid in s.fronts && s'.fronts[pid] == s.fronts[pid]
    ensures Safe(s')
  {
    forall p | DrawsOnRecord(s', p) ensures EntryKept(s', p) {
      assert EntryKept(s, p);
    }
    forall id | id in s'.sweeps ensures SweepSafe(s', s'.sweeps[id]) {
      assert SweepSafe(s, s.sweeps[id]);
    }
    forall pid | pid in s'.fronts && s'.fronts[pid].phase == Ending(true) && Owns(s', pid, s'.fronts[pid].pane)
      ensures Image(s'.fronts[pid].pane, true) !in s'.images
    {
      assert Owns(s, pid, s.fronts[pid].pane);
    }
  }

  /** What tmux, the terminals and the end of processes do. */
  lemma OutsideStep(s: State, step: Step, bases: Bases)
    requires Safe(s) && Enabled(s, step)
    requires step.Open? || step.Respawn? || step.Close? || step.Kill? || step.Gone? || step.Vanish?
    ensures Safe(Apply(s, step, bases))
  {
    hide Safe;
    QuietStep(s, Apply(s, step, bases));
  }

  lemma RecordStep(s: State, pid: Pid, how: Recording, bases: Bases)
    requires Safe(s) && Enabled(s, Record(pid, how))
    ensures Safe(Apply(s, Record(pid, how), bases)) <==> Guard(s, Record(pid, how))
  {
    match how
    case Written => WrittenStep(s, pid, bases);
    case Refused => QuietStep(s, Apply(s, Record(pid, how), bases));
    case Damaged => DamagedStep(s, pid, bases);
  }

  lemma DamagedStep(s: State, pid: Pid, bases: Bases)
    requires Safe(s) && Enabled(s, Record(pid, Damaged))
    ensures Safe(Apply(s, Record(pid, Damaged), bases)) <==> Guard(s, Record(pid, Damaged))
  {
    var s' := Apply(s, Record(pid, Damaged), bases);
    var mine := s.fronts[pid].pane;
    forall p ensures DrawsOnRecord(s', p) <==> DrawsOnRecord(s, p) {}
    if Guard(s, Record(pid, Damaged)) {
      forall p | DrawsOnRecord(s', p) ensures EntryKept(s', p) {
        assert EntryKept(s, p);
      }
      forall id | id in s'.sweeps ensures SweepSafe(s', s'.sweeps[id]) {
        assert SweepSafe(s, s.sweeps[id]);
      }
    } else if DrawsOnRecord(s, mine) {
      assert !EntryKept(s', mine);
    }
  }

  lemma WrittenStep(s: State, pid: Pid, bases: Bases)
    requires Safe(s) && Enabled(s, Record(pid, Written))
    ensures Safe(Apply(s, Record(pid, Written), bases)) <==> Guard(s, Record(pid, Written))
  {
    var s' := Apply(s, Record(pid, Written), bases);
    var mine := s.fronts[pid].pane;
    forall p ensures DrawsOnRecord(s', p) <==> DrawsOnRecord(s, p) || (p == mine && Occupies(s, pid)) {}
    WrittenKeepsEntries(s, pid, bases);
    WrittenUnlinks(s, pid, bases);
    if Occupies(s, pid) {
      assert DrawsOnRecord(s', mine);
    }
    forall id | id in s.sweeps
      ensures SweepSafe(s', s'.sweeps[id]) <==>
              (Occupies(s, pid) ==>
                match s.sweeps[id] case Scanning(live, _) => mine in live case Removing(_, _, left) => mine !in left)
    {
      assert SweepSafe(s, s.sweeps[id]);
    }
  }

  lemma WrittenUnlinks(s: State, pid: Pid, bases: Bases)
    requires Safe(s) && Enabled(s, Record(pid, Written))
    ensures UnlinksSafe(Apply(s, Record(pid, Written), bases)) <==>
            (Occupies(s, pid) ==> NobodyUnlinks(s, s.fronts[pid].pane))
  {
    var s' := Apply(s, Record(pid, Written), bases);
    var mine := s.fronts[pid].pane;
    forall p ensures DrawsOnRecord(s', p) <==> DrawsOnRecord(s, p) || (p == mine && Occupies(s, pid)) {}
    if Occupies(s, pid) {
      if other :| other in s.fronts && s.fronts[other] == Front(mine, Dropping) {
        assert s'.fronts[other] == Front(mine, Dropping) && DrawsOnRecord(s', mine);
      }
    }
  }

  lemma WrittenKeepsEntries(s: State, pid: Pid, bases: Bases)
    requires Safe(s) && Enabled(s, Record(pid, Written))
    ensures EntriesKept(Apply(s, Record(pid, Written), bases)) <==>
            (!Occupies(s, pid) ==> !DrawsOnRecord(s, s.fronts[pid].pane))
  {
    var s' := Apply(s, Record(pid, Written), bases);
    var mine := s.fronts[pid].pane;
    forall p | DrawsOnRecord(s', p) && p != mine ensures EntryKept(s', p) {
      assert DrawsOnRecord(s, p) && EntryKept(s, p);
    }
    if !Occupies(s, pid) && DrawsOnRecord(s, mine) {
      assert DrawsOnRecord(s', mine) && WillDrop(s', pid, mine);
    }
  }

  lemma DrawStep(s: State, pid: Pid, bases: Bases)
    requires Safe(s) && Enabled(s, Draw(pid))
    ensures Safe(Apply(s, Draw(pid), bases)) <==> Guard(s, Draw(pid))
  {
    var s' := Apply(s, Draw(pid), bases);
    var Front(mine, phase) := s.fronts[pid];
    forall p ensures DrawsOnRecord(s', p) <==> DrawsOnRecord(s, p) {}
    forall p | DrawsOnRecord(s', p) ensures EntryKept(s', p) {
      assert EntryKept(s, p);
    }
    if OnRecord(phase) {
      if phase.Drawing? {
        assert DrawsOnRecord(s, mine) && EntryKept(s, mine);
      }
      DrawnIsSafeIff(s, s', mine);
      forall id | id in s.sweeps && s.sweeps[id].Removing? ensures SweepSafe(s, s.sweeps[id]) {}
    } else {
      forall id | id in s'.sweeps ensures SweepSafe(s', s'.sweeps[id]) {
        assert SweepSafe(s, s.sweeps[id]);
      }
    }
  }

  /** One more page on record does no harm exactly if its entry stays. */
  lemma DrawnIsSafeIff(s: State, s': State, mine: Pane)
    requires Safe(s) && s' == s.(images := s.images + {Image(mine, true)})
    requires EntriesKept(s')
    ensures Safe(s') <==> EntryStays(s, mine)
  {
    forall p ensures DrawsOnRecord(s', p) <==> DrawsOnRecord(s, p) {}
    forall id | id in s.sweeps
      ensures SweepSafe(s', s'.sweeps[id]) <==> (s.sweeps[id].Removing? ==> mine !in s.sweeps[id].left)
    {
      assert SweepSafe(s, s.sweeps[id]);
    }
    assert Covered(s') <==> mine in s.registry;
    assert UnlinksSafe(s') <==> NobodyUnlinks(s, mine);
    DropsAfterDrawn(s, s', mine);
  }

  lemma DropsAfterDrawn(s: State, s': State, mine: Pane)
    requires DropsSafe(s) && s' == s.(images := s.images + {Image(mine, true)})
    ensures DropsSafe(s') <==>
            (mine in s.registry && s.registry[mine].pid in s.fronts ==>
               s.fronts[s.registry[mine].pid] != Front(mine, Ending(true)))
  {
    forall pid ensures Owns(s', pid, mine) <==> Owns(s, pid, mine) {}
    if mine in s.registry && s.registry[mine].pid in s.fronts &&
       s.fronts[s.registry[mine].pid] == Front(mine, Ending(true)) {
      var pid := s.registry[mine].pid;
      assert Owns(s', pid, s'.fronts[pid].pane) && Image(mine, true) in s'.images;
    }
  }

  /** A frontend ends: what matters is whether its own recorded page stays behind. */
  lemma EndsIff(s: State, s': State, pid: Pid, bases: Bases)
    requires Safe(s) && pid in s.fronts && s.fronts[pid].phase.Drawing?
    requires s'.images <= s.images
    requires s' == s.(fronts := s.fronts[pid := Front(s.fronts[pid].pane, Ending(s.fronts[pid].phase.recorded))],
                      images := s'.images)
    ensures var Front(p, phase) := s.fronts[pid];
            Safe(s') <==> (phase.recorded && Owns(s, pid, p) ==> Image(p, true) !in s'.images)
  {
    var Front(mine, phase) := s.fronts[pid];
    forall p | DrawsOnRecord(s', p) ensures DrawsOnRecord(s, p) && s.panes[p] != pid {}
    forall p | DrawsOnRecord(s', p) ensures EntryKept(s', p) {
      assert EntryKept(s, p);
    }
    forall id | id in s'.sweeps ensures SweepSafe(s', s'.sweeps[id]) {
      assert SweepSafe(s, s.sweeps[id]);
    }
    forall other, p ensures Owns(s', other, p) <==> Owns(s, other, p) {}
    if phase.recorded && Owns(s, pid, mine) && Image(mine, true) in s'.images {
      assert s'.fronts[pid] == Front(mine, Ending(true)) && Owns(s', pid, s'.fronts[pid].pane);
    }
  }

  lemma DeleteOwnStep(s: State, pid: Pid, lost: set<Image>, bases: Bases)
    requires Safe(s) && Enabled(s, DeleteOwn(pid, lost))
    ensures Safe(Apply(s, DeleteOwn(pid, lost), bases)) <==> Guard(s, DeleteOwn(pid, lost))
  {
    hide Safe;
    var s' := Apply(s, DeleteOwn(pid, lost), bases);
    var mine := s.fronts[pid].pane;
    assert Image(mine, true) in s'.images <==>
           Image(mine, true) in s.images && (mine !in s.panes || Image(mine, true) in lost);
    EndsIff(s, s', pid, bases);
  }

  lemma GiveUpStep(s: State, pid: Pid, bases: Bases)
    requires Safe(s) && Enabled(s, GiveUp(pid))
    ensures Safe(Apply(s, GiveUp(pid), bases)) <==> Guard(s, GiveUp(pid))
  {
    hide Safe;
    EndsIff(s, Apply(s, GiveUp(pid), bases), pid, bases);
  }

  lemma ResumeStep(s: State, pid: Pid, bases: Bases)
    requires Safe(s) && Enabled(s, Resume(pid))
    ensures Safe(Apply(s, Resume(pid), bases)) <==> Guard(s, Resume(pid))
  {
    var s' := Apply(s, Resume(pid), bases);
    var Front(mine, phase) := s.fronts[pid];
    var anew := phase.recorded && Occupies(s, pid);
    forall p ensures DrawsOnRecord(s', p) <==> DrawsOnRecord(s, p) || (p == mine && anew) {}
    forall other, p ensures WillDrop(s', other, p) <==> WillDrop(s, other, p) {}
    forall p | DrawsOnRecord(s', p) && !(anew && p == mine) ensures EntryKept(s', p) {
      assert DrawsOnRecord(s, p) && EntryKept(s, p);
    }
    assert anew ==> (EntryKept(s', mine) <==> EntryKept(s, mine));
    assert EntriesKept(s') <==> (anew ==> EntryKept(s, mine)) by {
      if anew {
        assert DrawsOnRecord(s', mine);
      }
    }
    forall id | id in s.sweeps
      ensures SweepSafe(s', s'.sweeps[id]) <==>
              (anew ==>
                match s.sweeps[id] case Scanning(live, _) => mine in live case Removing(_, _, left) => mine !in left)
    {
      assert SweepSafe(s, s.sweeps[id]);
    }
    ResumeUnlinks(s, pid, bases);
  }

  lemma ResumeUnlinks(s: State, pid: Pid, bases: Bases)
    requires Safe(s) && Enabled(s, Resume(pid))
    ensures UnlinksSafe(Apply(s, Resume(pid), bases)) <==>
            (s.fronts[pid].phase.recorded && Occupies(s, pid) ==> NobodyUnlinks(s, s.fronts[pid].pane))
  {
    var s' := Apply(s, Resume(pid), bases);
    var Front(mine, phase) := s.fronts[pid];
    forall p ensures DrawsOnRecord(s', p) <==> DrawsOnRecord(s, p) || (p == mine && phase.recorded && Occupies(s, pid)) {}
    if phase.recorded && Occupies(s, pid) {
      if other :| other in s.fronts && s.fronts[other] == Front(mine, Dropping) {
        assert s'.fronts[other] == Front(mine, Dropping) && DrawsOnRecord(s', mine);
      }
    }
  }

  lemma DropStep(s: State, pid: Pid, bases: Bases)
    requires Safe(s) && Truthful(s, bases) && Enabled(s, Drop(pid))
    ensures Safe(Apply(s, Drop(pid), bases))
  {
    var s' := Apply(s, Drop(pid), bases);
    var Front(mine, phase) := s.fronts[pid];
    if phase.recorded && Owns(s, pid, mine) {
      assert WillDrop(s, pid, mine);
      assert DrawsOnRecord(s, mine) ==> EntryKept(s, mine);
      forall p ensures DrawsOnRecord(s', p) <==> DrawsOnRecord(s, p) {}
      forall p | DrawsOnRecord(s', p) ensures EntryKept(s', p) {
        assert EntryKept(s, p);
      }
      forall id | id in s'.sweeps ensures SweepSafe(s', s'.sweeps[id]) {
        assert SweepSafe(s, s.sweeps[id]);
      }
    } else {
      hide Safe;
      QuietStep(s, s');
    }
  }

  lemma UnlinkStep(s: State, pid: Pid, bases: Bases)
    requires Safe(s) && Enabled(s, Unlink(pid))
    ensures Safe(Apply(s, Unlink(pid), bases))
  {
    var s' := Apply(s, Unlink(pid), bases);
    forall p ensures DrawsOnRecord(s', p) <==> DrawsOnRecord(s, p) {}
    forall p | DrawsOnRecord(s', p) ensures EntryKept(s', p) {
      assert EntryKept(s, p);
    }
    forall id | id in s'.sweeps ensures SweepSafe(s', s'.sweeps[id]) {
      assert SweepSafe(s, s.sweeps[id]);
    }
  }

  lemma SweepStep(s: State, step: Step, bases: Bases)
    requires Safe(s) && Enabled(s, step)
    requires step.List? || step.Scan? || step.EndSweep?
    ensures Safe(Apply(s, step, bases))
  {
    var s' := Apply(s, step, bases);
    forall p ensures DrawsOnRecord(s', p) <==> DrawsOnRecord(s, p) {}
    forall p | DrawsOnRecord(s', p) ensures EntryKept(s', p) {
      assert EntryKept(s, p);
    }
    forall id | id in s'.sweeps ensures SweepSafe(s', s'.sweeps[id]) {
      assert id in s.sweeps ==> SweepSafe(s, s.sweeps[id]);
    }
  }

  lemma ClearStep(s: State, id: SweepId, lost: set<Image>, bases: Bases)
    requires Safe(s) && Truthful(s, bases) && Enabled(s, Clear(id, lost))
    ensures Safe(Apply(s, Clear(id, lost), bases)) <==> Guard(s, Clear(id, lost))
  {
    var s' := Apply(s, Clear(id, lost), bases);
    var sweep := s.sweeps[id];
    assert SweepTrue(sweep, bases) && SweepSafe(s, sweep);
    forall p ensures DrawsOnRecord(s', p) <==> DrawsOnRecord(s, p) {}
    forall p | DrawsOnRecord(s', p) ensures EntryKept(s', p) {
      assert EntryKept(s, p);
    }
    forall p | p in sweep.dead
      ensures Image(p, true) in s'.images <==> Image(p, true) in s.images && Image(p, true) in lost
    {
      assert sweep.dead[p] in sweep.dead.Values;
    }
    forall other | other in s'.sweeps && other != id ensures SweepSafe(s', s'.sweeps[other]) {
      assert SweepSafe(s, s.sweeps[other]);
    }
    assert SweepSafe(s', s'.sweeps[id]) <==> Guard(s, Clear(id, lost));
  }

  lemma RemoveStep(s: State, id: SweepId, p: Pane, bases: Bases)
    requires Safe(s) && Enabled(s, Remove(id, p))
    ensures Safe(Apply(s, Remove(id, p), bases))
  {
    var s' := Apply(s, Remove(id, p), bases);
    assert SweepSafe(s, s.sweeps[id]);
    forall q ensures DrawsOnRecord(s', q) <==> DrawsOnRecord(s, q) {}
    forall q | DrawsOnRecord(s', q) ensures EntryKept(s', q) {
      assert EntryKept(s, q);
    }
    forall other | other in s'.sweeps ensures SweepSafe(s', s'.sweeps[other]) {
      assert SweepSafe(s, s.sweeps[other]);
    }
  }

  /** A step from a safe state leads to a safe one if and only if its guard holds. */
  lemma StepSafeIff(s: State, step: Step, bases: Bases)
    requires Safe(s) && Truthful(s, bases) && Enabled(s, step)
    ensures Safe(Apply(s, step, bases)) <==> Guard(s, step)
  {
    hide Safe, Truthful, Apply;
    match step
    case Record(pid, how) => RecordStep(s, pid, how, bases);
    case Draw(pid) => DrawStep(s, pid, bases);
    case DeleteOwn(pid, lost) => DeleteOwnStep(s, pid, lost, bases);
    case Resume(pid) => ResumeStep(s, pid, bases);
    case GiveUp(pid) => GiveUpStep(s, pid, bases);
    case Drop(pid) => DropStep(s, pid, bases);
    case Unlink(pid) => UnlinkStep(s, pid, bases);
    case Gone(_) => OutsideStep(s, step, bases);
    case List(_) => SweepStep(s, step, bases);
    case Scan(_, _) => SweepStep(s, step, bases);
    case EndSweep(_) => SweepStep(s, step, bases);
    case Clear(id, lost) => ClearStep(s, id, lost, bases);
    case Remove(id, p) => RemoveStep(s, id, p, bases);
    case Open(_, _) => OutsideStep(s, step, bases);
    case Respawn(_, _) => OutsideStep(s, step, bases);
    case Close(_) => OutsideStep(s, step, bases);
    case Kill(_) => OutsideStep(s, step, bases);
    case Vanish(_) => OutsideStep(s, step, bases);
  }
}
