/**
 Unpacking the embedded engine app into a directory named after its content. Any number of processes
 do it at once, each in a staging directory of its own, and each can fail or crash at any step.
 */
module EngineApp {

  import opened Wrappers

  type Pid = nat
  type Directory = map<string, string>

  /** What is embedded, in the order it is written. */
  type Bundle = seq<(string, string)>

  const MAIN := "main.cjs"

  /** The names are distinct and the main file is not empty. */
  ghost predicate Embedded(files: Bundle) {
    && (forall i, j :: 0 <= i < j < |files| ==> files[i].0 != files[j].0)
    && (exists i :: 0 <= i < |files| && files[i].0 == MAIN && files[i].1 != "")
  }

  /** A directory that is the embedded app: every file with something in it, whole, and no other. */
  ghost predicate IsApp(files: Bundle, d: Directory) {
    && (forall i :: 0 <= i < |files| && files[i].1 != "" ==> files[i].0 in d && d[files[i].0] == files[i].1)
    && OnlyEmbedded(files, d)
  }

  ghost predicate OnlyEmbedded(files: Bundle, d: Directory) {
    forall name :: name in d ==> exists i :: 0 <= i < |files| && files[i].0 == name && files[i].1 != ""
  }

  /** Where a process is; while writing, how many files are done and whether the next is begun. */
  datatype Phase =
    | Checking
    | Clearing
    | Writing(next: nat, begun: bool)
    | Discarding
    | Rechecking
    | Returned(ok: bool)

  datatype State = State(target: Option<Directory>, staging: map<Pid, Directory>, procs: map<Pid, Phase>)

  datatype Step =
    | Start(pid: Pid)
    | Check(pid: Pid)
    | Clear(pid: Pid, kept: set<string>)
    | Begin(pid: Pid, part: nat)
    | Complete(pid: Pid)
    | SkipEmpty(pid: Pid)
    | Fail(pid: Pid)
    | Rename(pid: Pid)
    | RenameFails(pid: Pid)
    | Discard(pid: Pid, kept: set<string>)
    | Recheck(pid: Pid)
    | Crash(pid: Pid)

  ghost predicate Init(s: State) {
    s == State(None, map[], map[])
  }

  predicate HasMain(s: State) {
    s.target.Some? && MAIN in s.target.value
  }

  predicate In(s: State, pid: Pid, phase: Phase) {
    pid in s.procs && s.procs[pid] == phase
  }

  ghost predicate WritingAt(s: State, pid: Pid, files: Bundle, begun: bool) {
    pid in s.procs && s.procs[pid].Writing? && s.procs[pid].begun == begun && s.procs[pid].next < |files|
  }

  ghost predicate Enabled(s: State, step: Step, files: Bundle) {
    match step
    case Start(pid) => pid !in s.procs
    case Check(pid) => In(s, pid, Checking)
    case Clear(pid, kept) => In(s, pid, Clearing)
    case Begin(pid, part) =>
      WritingAt(s, pid, files, false) && var body := files[s.procs[pid].next].1;
      body != "" && part <= |body| && pid in s.staging
    case Complete(pid) => WritingAt(s, pid, files, true) && pid in s.staging
    case SkipEmpty(pid) => WritingAt(s, pid, files, false) && files[s.procs[pid].next].1 == ""
    case Fail(pid) => pid in s.procs && (s.procs[pid].Clearing? || s.procs[pid].Writing?)
    // A directory is not renamed over one that has something in it.
    case Rename(pid) => In(s, pid, Writing(|files|, false)) && pid in s.staging && s.target.None?
    case RenameFails(pid) => In(s, pid, Writing(|files|, false))
    case Discard(pid, kept) => In(s, pid, Discarding)
    case Recheck(pid) => In(s, pid, Rechecking)
    case Crash(pid) => pid in s.procs
  }

  /** What is left of a directory whose removal may have stopped halfway. */
  function Leftover(staging: map<Pid, Directory>, pid: Pid, kept: set<string>): Directory {
    if pid in staging then map n | n in staging[pid] && n in kept :: staging[pid][n] else map[]
  }

  ghost function Apply(s: State, step: Step, files: Bundle): State
    requires Enabled(s, step, files)
  {
    match step
    case Start(pid) => s.(procs := s.procs[pid := Checking])
    case Check(pid) => s.(procs := s.procs[pid := if HasMain(s) then Returned(true) else Clearing])
    case Clear(pid, kept) =>
      s.(staging := s.staging[pid := Leftover(s.staging, pid, kept)], procs := s.procs[pid := Writing(0, false)])
    case Begin(pid, part) =>
      var k := s.procs[pid].next;
      s.(staging := s.staging[pid := s.staging[pid][files[k].0 := files[k].1[..part]]],
         procs := s.procs[pid := Writing(k, true)])
    case Complete(pid) =>
      var k := s.procs[pid].next;
      s.(staging := s.staging[pid := s.staging[pid][files[k].0 := files[k].1]],
         procs := s.procs[pid := Writing(k + 1, false)])
    case SkipEmpty(pid) => s.(procs := s.procs[pid := Writing(s.procs[pid].next + 1, false)])
    case Fail(pid) => s.(procs := s.procs[pid := Returned(false)])
    case Rename(pid) =>
      s.(target := Some(s.staging[pid]), staging := s.staging - {pid}, procs := s.procs[pid := Returned(true)])
    case RenameFails(pid) => s.(procs := s.procs[pid := Discarding])
    case Discard(pid, kept) =>
      s.(staging := s.staging[pid := Leftover(s.staging, pid, kept)], procs := s.procs[pid := Rechecking])
    case Recheck(pid) => s.(procs := s.procs[pid := Returned(HasMain(s))])
    case Crash(pid) => s.(procs := s.procs - {pid})
  }

  /** A process that is writing has written the files before the next, and a begun file has a body. */
  ghost predicate Progress(s: State, pid: Pid, files: Bundle)
    requires pid in s.procs
  {
    var phase := s.procs[pid];
    phase.Writing? ==>
      phase.next <= |files| && pid in s.staging &&
      (phase.begun ==> phase.next < |files| && files[phase.next].1 != "") &&
      Written(files, s.staging[pid], phase.next)
  }

  ghost predicate Written(files: Bundle, d: Directory, next: nat)
    requires next <= |files|
  {
    forall i :: 0 <= i < next && files[i].1 != "" ==> files[i].0 in d && d[files[i].0] == files[i].1
  }

  ghost predicate Inv(s: State, files: Bundle) {
    && (s.target.Some? ==> IsApp(files, s.target.value))
    && (forall pid :: pid in s.staging ==> OnlyEmbedded(files, s.staging[pid]))
    && (forall pid :: pid in s.procs ==> Progress(s, pid, files))
    && (forall pid :: In(s, pid, Returned(true)) ==> s.target.Some?)
  }

  lemma WriteStaysEmbedded(files: Bundle, d: Directory, k: nat, body: string)
    requires OnlyEmbedded(files, d) && k < |files| && files[k].1 != ""
    ensures OnlyEmbedded(files, d[files[k].0 := body])
  {
    var d' := d[files[k].0 := body];
    forall name | name in d' ensures exists i :: 0 <= i < |files| && files[i].0 == name && files[i].1 != "" {
      assert name in d || name == files[k].0;
    }
  }

  lemma LeftoverStaysEmbedded(files: Bundle, staging: map<Pid, Directory>, pid: Pid, kept: set<string>)
    requires forall p :: p in staging ==> OnlyEmbedded(files, staging[p])
    ensures OnlyEmbedded(files, Leftover(staging, pid, kept))
  {
    var d' := Leftover(staging, pid, kept);
    forall name | name in d' ensures exists i :: 0 <= i < |files| && files[i].0 == name && files[i].1 != "" {
      assert OnlyEmbedded(files, staging[pid]) && name in staging[pid];
    }
  }

  lemma WriteKeeps(s: State, step: Step, files: Bundle)
    requires Embedded(files) && Inv(s, files) && Enabled(s, step, files)
    requires step.Begin? || step.Complete? || step.SkipEmpty?
    ensures Inv(Apply(s, step, files), files)
  {
    var s' := Apply(s, step, files);
    var k := s.procs[step.pid].next;
    assert Progress(s, step.pid, files);
    if !step.SkipEmpty? {
      var part := if step.Begin? then files[k].1[..step.part] else files[k].1;
      WriteStaysEmbedded(files, s.staging[step.pid], k, part);
    }
    forall pid | pid in s'.staging ensures OnlyEmbedded(files, s'.staging[pid]) {
      if pid != step.pid {
        assert s'.staging[pid] == s.staging[pid];
      }
    }
    forall pid | In(s', pid, Returned(true)) ensures s'.target.Some? {
      assert In(s, pid, Returned(true));
    }
    forall pid | pid in s'.procs ensures Progress(s', pid, files) {
      assert Progress(s, pid, files);
    }
  }

  lemma OtherKeeps(s: State, step: Step, files: Bundle)
    requires Embedded(files) && Inv(s, files) && Enabled(s, step, files)
    requires !(step.Begin? || step.Complete? || step.SkipEmpty? || step.Rename?)
    ensures Inv(Apply(s, step, files), files)
  {
    var s' := Apply(s, step, files);
    if step.Clear? || step.Discard? {
      LeftoverStaysEmbedded(files, s.staging, step.pid, step.kept);
    }
    forall pid | In(s', pid, Returned(true)) ensures s'.target.Some? {
      if !step.Check? && !step.Recheck? {
        assert In(s, pid, Returned(true));
      } else if pid != step.pid {
        assert In(s, pid, Returned(true));
      }
    }
    forall pid | pid in s'.procs ensures Progress(s', pid, files) {
      assert pid in s.procs ==> Progress(s, pid, files);
    }
  }

  lemma RenameKeeps(s: State, pid: Pid, files: Bundle)
    requires Embedded(files) && Inv(s, files) && Enabled(s, Rename(pid), files)
    ensures Inv(Apply(s, Rename(pid), files), files)
  {
    var s' := Apply(s, Rename(pid), files);
    assert Progress(s, pid, files);
    forall q | q in s'.procs ensures Progress(s', q, files) {
      assert Progress(s, q, files);
    }
  }

  lemma StepKeepsInv(s: State, step: Step, files: Bundle)
    requires Embedded(files) && Inv(s, files) && Enabled(s, step, files)
    ensures Inv(Apply(s, step, files), files)
  {
    hide Inv, Enabled, Apply, Embedded;
    match step
    case Begin(_, _) => WriteKeeps(s, step, files);
    case Complete(_) => WriteKeeps(s, step, files);
    case SkipEmpty(_) => WriteKeeps(s, step, files);
    case Rename(pid) => RenameKeeps(s, pid, files);
    case _ => OtherKeeps(s, step, files);
  }

  ghost predicate Next(s: State, s': State, files: Bundle) {
    exists step :: Enabled(s, step, files) && s' == Apply(s, step, files)
  }

  ghost predicate IsRun(run: seq<State>, files: Bundle) {
    run != [] && Init(run[0]) && forall k :: 0 <= k < |run| - 1 ==> Next(run[k], run[k + 1], files)
  }

  lemma {:induction false} RunsKeepInv(run: seq<State>, files: Bundle, k: nat)
    requires Embedded(files) && IsRun(run, files) && k < |run|
    ensures Inv(run[k], files)
  {
    hide Inv, Enabled, Apply, Embedded;
    if k == 0 {
      InitInv(run[0], files);
    } else {
      RunsKeepInv(run, files, k - 1);
      assert Next(run[k - 1], run[k - 1 + 1], files);
      var step :| Enabled(run[k - 1], step, files) && run[k] == Apply(run[k - 1], step, files);
      StepKeepsInv(run[k - 1], step, files);
    }
  }

  lemma InitInv(s: State, files: Bundle)
    requires Init(s)
    ensures Inv(s, files)
  {}

  lemma MainInApp(files: Bundle, d: Directory)
    requires Embedded(files) && IsApp(files, d)
    ensures MAIN in d
  {
    var i :| 0 <= i < |files| && files[i].0 == MAIN && files[i].1 != "";
    assert files[i].0 in d;
  }

  /** The unpack race, at every point of every run: the target is absent or exactly the embedded app;
      and a process that returned `Ok` names such a directory. */
  lemma TargetAbsentOrApp(run: seq<State>, files: Bundle, k: nat)
    requires Embedded(files) && IsRun(run, files) && k < |run|
    ensures run[k].target.Some? ==> IsApp(files, run[k].target.value) && MAIN in run[k].target.value
    ensures forall pid :: In(run[k], pid, Returned(true)) ==> run[k].target.Some?
  {
    RunsKeepInv(run, files, k);
    if run[k].target.Some? {
      MainInApp(files, run[k].target.value);
    }
  }

  /** Once it is there, no process changes it. */
  lemma {:induction false} TargetNeverChanges(run: seq<State>, files: Bundle, i: nat, j: nat)
    requires IsRun(run, files) && i <= j < |run| && run[i].target.Some?
    ensures run[j].target == run[i].target
    decreases j - i
  {
    if i < j {
      assert Next(run[i], run[i + 1], files);
      var step :| Enabled(run[i], step, files) && run[i + 1] == Apply(run[i], step, files);
      TargetNeverChanges(run, files, i + 1, j);
    }
  }

  /** Two applications unpacked at the same place are the same: the winner's is the loser's. */
  lemma AppIsUnique(files: Bundle, a: Directory, b: Directory)
    requires Embedded(files) && IsApp(files, a) && IsApp(files, b)
    ensures a == b
  {
    forall name | name in a ensures name in b && a[name] == b[name] {
      var i :| 0 <= i < |files| && files[i].0 == name && files[i].1 != "";
    }
    forall name | name in b ensures name in a {
      var i :| 0 <= i < |files| && files[i].0 == name && files[i].1 != "";
    }
  }

  /** A process that loses the race returns the winner's directory, and fails only when there is
      none. */
  lemma LoserReturnsWinners(run: seq<State>, files: Bundle, k: nat, pid: Pid)
    requires Embedded(files) && IsRun(run, files) && k + 1 < |run|
    requires Enabled(run[k], Recheck(pid), files) && run[k + 1] == Apply(run[k], Recheck(pid), files)
    ensures In(run[k + 1], pid, Returned(run[k].target.Some?))
  {
    TargetAbsentOrApp(run, files, k);
  }

  // One process that nothing happens to.

  /** The state after a list of steps; none if one of them was not enabled. */
  ghost function After(s: State, steps: seq<Step>, files: Bundle): Option<State>
    decreases |steps|
  {
    if steps == [] then Some(s)
    else if !Enabled(s, steps[0], files) then None
    else After(Apply(s, steps[0], files), steps[1..], files)
  }

  lemma {:induction false} AfterBoth(s: State, a: seq<Step>, b: seq<Step>, files: Bundle)
    ensures After(s, a + b, files) == match After(s, a, files) case None => None case Some(m) => After(m, b, files)
    decreases |a|
  {
    hide Enabled, Apply;
    if a == [] {
      assert a + b == b;
    } else {
      assert (a + b)[1..] == a[1..] + b;
      if Enabled(s, a[0], files) {
        AfterBoth(Apply(s, a[0], files), a[1..], b, files);
      }
    }
  }

  lemma AfterOne(s: State, step: Step, files: Bundle)
    requires Enabled(s, step, files)
    ensures After(s, [step], files) == Some(Apply(s, step, files))
  {
    assert [step][1..] == [];
    var next := Apply(s, step, files);
    assert After(next, [], files) == Some(next);
  }

  /** Going on with one step. */
  lemma Onward(s: State, steps: seq<Step>, m: State, step: Step, files: Bundle)
    requires After(s, steps, files) == Some(m) && Enabled(m, step, files)
    ensures After(s, steps + [step], files) == Some(Apply(m, step, files))
  {
    AfterBoth(s, steps, [step], files);
    AfterOne(m, step, files);
  }

  /** It writes file after file. */
  lemma {:induction false} WritesOn(s: State, steps: seq<Step>, m: State, pid: Pid, files: Bundle) returns (more: seq<Step>, end: State)
    requires After(s, steps, files) == Some(m) && m.target.None? && pid in m.staging
    requires pid in m.procs && m.procs[pid].Writing? && !m.procs[pid].begun && m.procs[pid].next <= |files|
    ensures After(s, more, files) == Some(end) && end.target.None? && pid in end.staging
    ensures In(end, pid, Writing(|files|, false))
    decreases |files| - m.procs[pid].next
  {
    more, end := steps, m;
    var k := m.procs[pid].next;
    if k < |files| {
      if files[k].1 == "" {
        Onward(s, steps, m, SkipEmpty(pid), files);
        more, end := WritesOn(s, steps + [SkipEmpty(pid)], Apply(m, SkipEmpty(pid), files), pid, files);
      } else {
        Onward(s, steps, m, Begin(pid, 0), files);
        var begun := Apply(m, Begin(pid, 0), files);
        Onward(s, steps + [Begin(pid, 0)], begun, Complete(pid), files);
        more, end := WritesOn(s, steps + [Begin(pid, 0)] + [Complete(pid)], Apply(begun, Complete(pid), files), pid, files);
      }
    }
  }

  /** Wherever nothing is unpacked yet, a process that begins and is let go on unpacks the app and returns
      success. */
  lemma Unpacks(s: State, pid: Pid, files: Bundle) returns (steps: seq<Step>, end: State)
    requires Embedded(files) && Inv(s, files) && s.target.None? && pid !in s.procs
    ensures After(s, steps, files) == Some(end)
    ensures end.target.Some? && IsApp(files, end.target.value) && In(end, pid, Returned(true))
  {
    hide Inv, Embedded;
    AfterOne(s, Start(pid), files);
    var s1 := Apply(s, Start(pid), files);
    Onward(s, [Start(pid)], s1, Check(pid), files);
    var s2 := Apply(s1, Check(pid), files);
    Onward(s, [Start(pid), Check(pid)], s2, Clear(pid, {}), files);
    assert [Start(pid)] + [Check(pid)] == [Start(pid), Check(pid)];
    var s3 := Apply(s2, Clear(pid, {}), files);
    var more, m := WritesOn(s, [Start(pid), Check(pid)] + [Clear(pid, {})], s3, pid, files);
    Onward(s, more, m, Rename(pid), files);
    steps, end := more + [Rename(pid)], Apply(m, Rename(pid), files);
    AfterKeepsInv(s, steps, files);
    InvTells(end, files);
  }

  lemma {:induction false} AfterKeepsInv(s: State, steps: seq<Step>, files: Bundle)
    requires Embedded(files) && Inv(s, files) && After(s, steps, files).Some?
    ensures Inv(After(s, steps, files).value, files)
    decreases |steps|
  {
    hide Inv, Enabled, Apply, Embedded;
    if steps != [] {
      StepKeepsInv(s, steps[0], files);
      AfterKeepsInv(Apply(s, steps[0], files), steps[1..], files);
    }
  }

  lemma InvTells(s: State, files: Bundle)
    requires Inv(s, files) && s.target.Some?
    ensures IsApp(files, s.target.value)
  {}
}
