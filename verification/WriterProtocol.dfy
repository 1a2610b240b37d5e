/**
 Any number of threads writing batches to one tty through the writer's mutex, byte by byte. Every
 interleaving of the steps below is a run; what the tty holds is then read off the runs.
 */
module WriterProtocol {

  import opened Octets
  import opened Wrappers
  import opened Sequences
  import opened TornScan

  type Thread = nat
  type Batch = seq<seq<byte>>

  /** The batches each thread calls `write_batch` with, in its program order. */
  type Program = map<Thread, seq<Batch>>

  /** The thread inside the lock: which sequence of its batch it is at, and how far into it. */
  datatype Hold = Hold(thread: Thread, batch: Batch, next: nat, off: nat) {
    ghost predicate Valid() {
      next <= |batch| && off <= if next < |batch| then |batch[next]| else 0
    }

    ghost function Sent(): seq<byte>
      requires Valid()
    {
      Flatten(batch[..next]) + if next < |batch| then batch[next][..off] else []
    }
  }

  /** A finished lock hold: the batch, the bytes of it that reached the tty, and whether a write
      failed (or its thread panicked, which leaves the lock poisoned but usable). */
  datatype Turn = Turn(thread: Thread, batch: Batch, sent: seq<byte>, failed: bool)

  datatype State = State(stream: seq<byte>, todo: Program, holder: Option<Hold>, turns: seq<Turn>)

  ghost predicate Init(program: Program, s: State) {
    s == State([], program, None, [])
  }

  datatype Step = Acquire(thread: Thread) | WriteByte | NextSequence | Finish | Fail

  ghost predicate Enabled(s: State, step: Step) {
    match step
    case Acquire(t) => s.holder.None? && t in s.todo && s.todo[t] != []
    case WriteByte =>
      s.holder.Some? && var h := s.holder.value; h.next < |h.batch| && h.off < |h.batch[h.next]|
    case NextSequence =>
      s.holder.Some? && var h := s.holder.value; h.next < |h.batch| && h.off == |h.batch[h.next]|
    case Finish => s.holder.Some? && s.holder.value.next == |s.holder.value.batch|
    case Fail => s.holder.Some? && s.holder.value.Valid()
  }

  ghost function Apply(s: State, step: Step): State
    requires Enabled(s, step)
  {
    match step
    case Acquire(t) =>
      s.(holder := Some(Hold(t, s.todo[t][0], 0, 0)), todo := s.todo[t := s.todo[t][1..]])
    case WriteByte =>
      var h := s.holder.value;
      s.(stream := s.stream + [h.batch[h.next][h.off]], holder := Some(h.(off := h.off + 1)))
    case NextSequence =>
      var h := s.holder.value;
      s.(holder := Some(h.(next := h.next + 1, off := 0)))
    case Finish =>
      // The flush runs here; the bytes are out whether or not it succeeds.
      var h := s.holder.value;
      s.(holder := None, turns := s.turns + [Turn(h.thread, h.batch, Flatten(h.batch), false)])
    case Fail =>
      var h := s.holder.value;
      s.(holder := None, turns := s.turns + [Turn(h.thread, h.batch, h.Sent(), true)])
  }

  ghost predicate Next(s: State, s': State) {
    exists step :: Enabled(s, step) && s' == Apply(s, step)
  }

  ghost predicate IsRun(program: Program, run: seq<State>) {
    |run| > 0 && Init(program, run[0]) && forall k :: 0 <= k < |run| - 1 ==> Next(run[k], run[k + 1])
  }

  /** The bytes of the finished turns, in lock order. */
  ghost function Bytes(turns: seq<Turn>): seq<byte> {
    if turns == [] then [] else Bytes(turns[..|turns| - 1]) + turns[|turns| - 1].sent
  }

  /** The batches a thread has had its turn with, in lock order. */
  ghost function Taken(turns: seq<Turn>, t: Thread): seq<Batch> {
    if turns == [] then []
    else
      var last := turns[|turns| - 1];
      Taken(turns[..|turns| - 1], t) + if last.thread == t then [last.batch] else []
  }

  ghost function Held(s: State, t: Thread): seq<Batch> {
    if s.holder.Some? && s.holder.value.thread == t then [s.holder.value.batch] else []
  }

  ghost function Partial(s: State): seq<byte>
    requires s.holder.Some? ==> s.holder.value.Valid()
  {
    if s.holder.Some? then s.holder.value.Sent() else []
  }

  /** The stream is the turns' bytes in lock order, each contiguous, then what the holder has sent;
      a turn's bytes are its whole batch unless it failed, and then a prefix of it; and no thread's
      batch is lost, repeated or reordered. */
  ghost predicate Serialised(program: Program, s: State) {
    && (s.holder.Some? ==> s.holder.value.Valid())
    && s.stream == Bytes(s.turns) + Partial(s)
    && (forall i :: 0 <= i < |s.turns| ==>
          var turn := s.turns[i];
          turn.sent <= Flatten(turn.batch) && (!turn.failed ==> turn.sent == Flatten(turn.batch)))
    && s.todo.Keys == program.Keys
    && (forall t :: t in program ==> Taken(s.turns, t) + Held(s, t) + s.todo[t] == program[t])
  }

  lemma SentGrows(h: Hold)
    requires h.Valid() && h.next < |h.batch|
    ensures h.off < |h.batch[h.next]| ==>
              h.(off := h.off + 1).Sent() == h.Sent() + [h.batch[h.next][h.off]]
    ensures h.off == |h.batch[h.next]| ==>
              var moved := h.(next := h.next + 1, off := 0);
              moved.Valid() && moved.Sent() == h.Sent()
    ensures h.Sent() <= Flatten(h.batch)
  {
    FlattenTake(h.batch, h.next);
    FlattenPrefix(h.batch, h.next + 1);
    if h.off < |h.batch[h.next]| {
      assert h.batch[h.next][..h.off + 1] == h.batch[h.next][..h.off] + [h.batch[h.next][h.off]];
    } else {
      assert h.batch[h.next][..h.off] == h.batch[h.next];
    }
  }

  lemma EndTurn(s: State, turn: Turn)
    ensures Bytes(s.turns + [turn]) == Bytes(s.turns) + turn.sent
    ensures forall t :: Taken(s.turns + [turn], t) ==
                        Taken(s.turns, t) + if turn.thread == t then [turn.batch] else []
  {
    assert (s.turns + [turn])[..|s.turns|] == s.turns;
  }

  lemma Begun(h: Hold)
    requires h.next == 0 && h.off == 0
    ensures h.Valid() && h.Sent() == []
  {
    assert h.batch[..0] == [];
  }

  lemma FirstMoves<T>(taken: seq<T>, todo: seq<T>)
    requires todo != []
    ensures taken + [] + todo == taken + [todo[0]] + todo[1..]
  {
    assert todo == [todo[0]] + todo[1..];
  }

  lemma AcquireKeeps(program: Program, s: State, t: Thread)
    requires Serialised(program, s) && Enabled(s, Acquire(t))
    ensures Serialised(program, Apply(s, Acquire(t)))
  {
    hide Bytes, Taken, Flatten, Hold.Sent;
    var s' := Apply(s, Acquire(t));
    Begun(s'.holder.value);
    forall u | u in program ensures Taken(s'.turns, u) + Held(s', u) + s'.todo[u] == program[u] {
      assert Taken(s.turns, u) + Held(s, u) + s.todo[u] == program[u];
      if u == t {
        FirstMoves(Taken(s.turns, t), s.todo[t]);
      }
    }
  }

  lemma WriteKeeps(program: Program, s: State, step: Step)
    requires step == WriteByte || step == NextSequence
    requires Serialised(program, s) && Enabled(s, step)
    ensures Serialised(program, Apply(s, step))
  {
    SentGrows(s.holder.value);
    hide Bytes, Taken, Flatten, Hold.Sent;
    var s' := Apply(s, step);
    assert s'.stream == Bytes(s'.turns) + Partial(s');
    forall u | u in program ensures Taken(s'.turns, u) + Held(s', u) + s'.todo[u] == program[u] {
      assert Held(s', u) == Held(s, u);
    }
  }

  lemma EndKeeps(program: Program, s: State, step: Step)
    requires step == Finish || step == Fail
    requires Serialised(program, s) && Enabled(s, step)
    ensures Serialised(program, Apply(s, step))
  {
    hide Bytes, Taken;
    var h := s.holder.value;
    var s' := Apply(s, step);
    var turn := s'.turns[|s.turns|];
    SentIsPrefix(h);
    assert s'.turns == s.turns + [turn] && turn.sent == h.Sent();
    EndTurn(s, turn);
    hide Flatten, Hold.Sent;
    forall u | u in program ensures Taken(s'.turns, u) + Held(s', u) + s'.todo[u] == program[u] {
      assert Taken(s'.turns, u) == Taken(s.turns, u) + Held(s, u);
      assert Taken(s'.turns, u) + [] == Taken(s'.turns, u);
    }
  }

  lemma SentIsPrefix(h: Hold)
    requires h.Valid()
    ensures h.Sent() <= Flatten(h.batch)
    ensures h.next == |h.batch| ==> h.Sent() == Flatten(h.batch)
  {
    if h.next < |h.batch| {
      SentGrows(h);
    } else {
      assert h.batch[..h.next] == h.batch;
    }
  }

  lemma StepKeepsSerialised(program: Program, s: State, step: Step)
    requires Serialised(program, s) && Enabled(s, step)
    ensures Serialised(program, Apply(s, step))
  {
    hide Serialised, Enabled, Apply;
    match step
    case Acquire(t) => AcquireKeeps(program, s, t);
    case WriteByte => WriteKeeps(program, s, step);
    case NextSequence => WriteKeeps(program, s, step);
    case Finish => EndKeeps(program, s, step);
    case Fail => EndKeeps(program, s, step);
  }

  /** Every state of every run is serialised. */
  lemma {:induction false} RunsSerialise(program: Program, run: seq<State>, k: nat)
    requires IsRun(program, run) && k < |run|
    ensures Serialised(program, run[k])
  {
    if k > 0 {
      RunsSerialise(program, run, k - 1);
      assert Next(run[k - 1], run[k - 1 + 1]);
      var step :| Enabled(run[k - 1], step) && run[k] == Apply(run[k - 1], step);
      StepKeepsSerialised(program, run[k - 1], step);
    }
  }

  /** Every batch is whole commands, none torn. A batch of well-formed sequences is one. */
  ghost predicate SendsWellFormed(program: Program) {
    forall t, i :: t in program && 0 <= i < |program[t]| ==> WellFormed(Flatten(program[t][i]))
  }

  lemma {:induction false} TurnsWellFormed(turns: seq<Turn>)
    requires forall i :: 0 <= i < |turns| ==> WellFormed(turns[i].sent)
    ensures WellFormed(Bytes(turns))
  {
    if turns != [] {
      TurnsWellFormed(turns[..|turns| - 1]);
      ClosedAdds(Bytes(turns[..|turns| - 1]), turns[|turns| - 1].sent);
    }
  }

  lemma {:induction false} TakenHolds(turns: seq<Turn>, i: nat)
    requires i < |turns|
    ensures turns[i].batch in Taken(turns, turns[i].thread)
  {
    if i < |turns| - 1 {
      TakenHolds(turns[..|turns| - 1], i);
    }
  }

  /** A batch that had or has its turn is one its thread was to send. */
  lemma TurnsAreProgrammed(program: Program, s: State)
    requires Serialised(program, s)
    requires forall i :: 0 <= i < |s.turns| ==> s.turns[i].thread in program
    requires s.holder.Some? ==> s.holder.value.thread in program
    ensures forall i :: 0 <= i < |s.turns| ==> s.turns[i].batch in program[s.turns[i].thread]
    ensures s.holder.Some? ==> s.holder.value.batch in program[s.holder.value.thread]
  {
    forall i | 0 <= i < |s.turns| ensures s.turns[i].batch in program[s.turns[i].thread] {
      TakenHolds(s.turns, i);
      var t := s.turns[i].thread;
      assert s.turns[i].batch in Taken(s.turns, t) + Held(s, t) + s.todo[t];
    }
    if s.holder.Some? {
      var t := s.holder.value.thread;
      assert s.holder.value.batch in Taken(s.turns, t) + Held(s, t) + s.todo[t];
    }
  }

  ghost predicate KnownThreads(program: Program, s: State) {
    && (forall i :: 0 <= i < |s.turns| ==> s.turns[i].thread in program)
    && (s.holder.Some? ==> s.holder.value.thread in program)
  }

  lemma {:induction false} RunsKnowThreads(program: Program, run: seq<State>, k: nat)
    requires IsRun(program, run) && k < |run|
    ensures KnownThreads(program, run[k]) && run[k].todo.Keys == program.Keys
  {
    if k > 0 {
      RunsKnowThreads(program, run, k - 1);
      assert Next(run[k - 1], run[k - 1 + 1]);
    }
  }

  /** What reached the tty of a turn is well-formed if it is closed: a prefix of a well-formed batch
      is not torn. */
  lemma ClosedTurnsWellFormed(program: Program, s: State)
    requires Serialised(program, s) && KnownThreads(program, s) && SendsWellFormed(program)
    requires FailuresClosed(s.turns)
    ensures forall i :: 0 <= i < |s.turns| ==> WellFormed(s.turns[i].sent)
  {
    hide ScanFrom, EndsInsideStart, Taken, Torn;
    TurnsAreProgrammed(program, s);
    forall i | 0 <= i < |s.turns| ensures WellFormed(s.turns[i].sent) {
      var turn := s.turns[i];
      assert WellFormed(Flatten(turn.batch));
      TornMonotone(turn.sent, Flatten(turn.batch)[|turn.sent|..]);
      assert turn.sent + Flatten(turn.batch)[|turn.sent|..] == Flatten(turn.batch);
    }
  }

  /** Wherever a write failed, it left nothing half-written: whole commands or the beginning of none. */
  ghost predicate FailuresClosed(turns: seq<Turn>) {
    forall i :: 0 <= i < |turns| && turns[i].failed ==> Closed(turns[i].sent)
  }

  /** The writer's invariant: however the threads interleave and writes fail, as long as the failures
      left closed prefixes the tty never holds a torn command, not even in the middle of a batch, and
      between batches everything on it is closed. */
  lemma RunsNeverTear(program: Program, run: seq<State>, k: nat)
    requires IsRun(program, run) && k < |run|
    requires SendsWellFormed(program)
    requires FailuresClosed(run[k].turns)
    ensures Torn(run[k].stream) == 0
    ensures run[k].holder.None? ==> WellFormed(run[k].stream)
  {
    hide ScanFrom, EndsInsideStart, Taken, FailuresClosed;
    var s := run[k];
    RunsSerialise(program, run, k);
    RunsKnowThreads(program, run, k);
    TurnsAreProgrammed(program, s);
    ClosedTurnsWellFormed(program, s);
    TurnsWellFormed(s.turns);
    if s.holder.Some? {
      var h := s.holder.value;
      ClosedAdds(Bytes(s.turns), Flatten(h.batch));
      if h.next < |h.batch| {
        SentGrows(h);
      } else {
        assert h.batch[..h.next] == h.batch;
      }
      var rest := Flatten(h.batch)[|h.Sent()|..];
      assert Bytes(s.turns) + Flatten(h.batch) == s.stream + rest;
      TornMonotone(s.stream, rest);
    } else {
      assert s.stream == Bytes(s.turns);
    }
  }

  // What a failed write can cost.

  ghost function Last(run: seq<State>): State
    requires run != []
  {
    run[|run| - 1]
  }

  /** The run goes on by one step. */
  lemma Extended(program: Program, run: seq<State>, step: Step) returns (longer: seq<State>)
    requires IsRun(program, run) && Enabled(Last(run), step)
    ensures IsRun(program, longer) && run <= longer && Last(longer) == Apply(Last(run), step)
  {
    longer := run + [Apply(Last(run), step)];
    forall k | 0 <= k < |longer| - 1 ensures Next(longer[k], longer[k + 1]) {
      if k < |run| - 1 {
        assert Next(run[k], run[k + 1]);
      }
    }
  }

  /** What a holder still has to write. */
  ghost function Rest(h: Hold): seq<byte>
    requires h.Valid()
  {
    if h.next < |h.batch| then h.batch[h.next][h.off..] + Flatten(h.batch[h.next + 1..]) else []
  }

  /** A thread inside the lock can always write what is left of its batch. */
  lemma {:induction false} TurnFinishes(program: Program, run: seq<State>) returns (longer: seq<State>)
    requires IsRun(program, run) && Last(run).holder.Some? && Last(run).holder.value.Valid()
    ensures IsRun(program, longer) && run <= longer
    ensures var s, h := Last(run), Last(run).holder.value;
            Last(longer) == s.(stream := s.stream + Rest(h), holder := None,
                               turns := s.turns + [Turn(h.thread, h.batch, Flatten(h.batch), false)])
    decreases |Last(run).holder.value.batch| - Last(run).holder.value.next,
              var h := Last(run).holder.value; if h.next < |h.batch| then |h.batch[h.next]| - h.off else 0
  {
    hide Enabled, Apply, Rest, Flatten, Next;
    var s := Last(run);
    var h := s.holder.value;
    HolderSteps(s);
    if h.next == |h.batch| {
      longer := Extended(program, run, Finish);
    } else {
      RestShrinks(h);
      if h.off < |h.batch[h.next]| {
        var next := Extended(program, run, WriteByte);
        longer := TurnFinishes(program, next);
        assert s.stream + Rest(h) == (s.stream + [h.batch[h.next][h.off]]) + Rest(h.(off := h.off + 1));
      } else {
        var next := Extended(program, run, NextSequence);
        longer := TurnFinishes(program, next);
      }
    }
  }

  /** The step a thread inside the lock takes next. */
  lemma HolderSteps(s: State)
    requires s.holder.Some? && s.holder.value.Valid()
    ensures var h := s.holder.value;
            && (h.next == |h.batch| ==>
                  && Enabled(s, Finish) && Rest(h) == []
                  && Apply(s, Finish) == s.(stream := s.stream + Rest(h), holder := None,
                                            turns := s.turns + [Turn(h.thread, h.batch, Flatten(h.batch), false)]))
            && (h.next < |h.batch| && h.off < |h.batch[h.next]| ==>
                  && Enabled(s, WriteByte)
                  && Apply(s, WriteByte) == s.(stream := s.stream + [h.batch[h.next][h.off]],
                                               holder := Some(h.(off := h.off + 1))))
            && (h.next < |h.batch| && h.off == |h.batch[h.next]| ==>
                  && Enabled(s, NextSequence)
                  && Apply(s, NextSequence) == s.(holder := Some(h.(next := h.next + 1, off := 0))))
  {
    assert s.stream + [] == s.stream;
  }

  lemma RestShrinks(h: Hold)
    requires h.Valid() && h.next < |h.batch|
    ensures h.off < |h.batch[h.next]| ==> Rest(h) == [h.batch[h.next][h.off]] + Rest(h.(off := h.off + 1))
    ensures h.off == |h.batch[h.next]| ==> Rest(h) == Rest(h.(next := h.next + 1, off := 0))
  {
    var sequence := h.batch[h.next];
    if h.off < |sequence| {
      assert sequence[h.off..] == [sequence[h.off]] + sequence[h.off + 1..];
    } else {
      var later := h.batch[h.next + 1..];
      assert later != [] ==> later[0] == h.batch[h.next + 1] && later[1..] == h.batch[h.next + 2..];
    }
  }

  /** The last turn failed, every turn before it left something closed, and no one holds the lock. */
  ghost predicate JustFailed(s: State) {
    && s.holder.None? && s.turns != [] && s.turns[|s.turns| - 1].failed
    && FailuresClosed(s.turns[..|s.turns| - 1])
  }

  /** The stream after a failure is torn no more by what comes next than the failed turn's bytes are. */
  lemma StreamAfterFailure(program: Program, run: seq<State>, v: seq<byte>)
    requires IsRun(program, run) && SendsWellFormed(program) && JustFailed(Last(run))
    ensures var sent := Last(run).turns[|Last(run).turns| - 1].sent;
            && Torn(Last(run).stream + v) == Torn(sent + v)
            && Torn(sent) == 0
  {
    hide ScanFrom, EndsInsideStart, Taken, Torn, Closed;
    var s := Last(run);
    var n := |s.turns| - 1;
    RunsSerialise(program, run, |run| - 1);
    RunsKnowThreads(program, run, |run| - 1);
    TurnsAreProgrammed(program, s);
    var turn := s.turns[n];
    assert WellFormed(Flatten(turn.batch));
    var rest := Flatten(turn.batch)[|turn.sent|..];
    assert turn.sent + rest == Flatten(turn.batch);
    TornMonotone(turn.sent, rest);
    EarlierTurnsWellFormed(program, s);
    assert s.stream + v == Bytes(s.turns[..n]) + (turn.sent + v);
    ClosedAdds(Bytes(s.turns[..n]), turn.sent + v);
  }

  lemma EarlierTurnsWellFormed(program: Program, s: State)
    requires Serialised(program, s) && KnownThreads(program, s) && SendsWellFormed(program) && JustFailed(s)
    ensures WellFormed(Bytes(s.turns[..|s.turns| - 1]))
  {
    hide ScanFrom, EndsInsideStart, Taken, Torn;
    var early := s.turns[..|s.turns| - 1];
    TurnsAreProgrammed(program, s);
    forall i | 0 <= i < |early| ensures WellFormed(early[i].sent) {
      var turn := s.turns[i];
      assert early[i] == turn && (turn.failed ==> Closed(turn.sent));
      assert WellFormed(Flatten(turn.batch));
      TornMonotone(turn.sent, Flatten(turn.batch)[|turn.sent|..]);
      assert turn.sent + Flatten(turn.batch)[|turn.sent|..] == Flatten(turn.batch);
    }
    TurnsWellFormed(early);
  }

  /** What a failed write costs, in any run: it is harmless to whatever well-formed batch comes next
      if and only if the prefix it left on the tty is closed. */
  lemma FailureHarmsUnlessClosed(program: Program, run: seq<State>)
    requires IsRun(program, run) && SendsWellFormed(program) && JustFailed(Last(run))
    ensures Closed(Last(run).turns[|Last(run).turns| - 1].sent) <==>
            forall v :: WellFormed(v) ==> Torn(Last(run).stream + v) == 0
  {
    hide ScanFrom, EndsInsideStart, Torn, Closed, WellFormed, JustFailed, Serialised;
    JustFailedUnlocked(Last(run));
    var sent := Last(run).turns[|Last(run).turns| - 1].sent;
    StreamAfterFailure(program, run, []);
    ClosedIffHarmless(sent);
    var stream := Last(run).stream;
    if Closed(sent) {
      forall v | WellFormed(v) ensures Torn(stream + v) == 0 {
        StreamAfterFailure(program, run, v);
      }
    } else {
      var v :| WellFormed(v) && Torn(sent + v) != Torn(sent);
      StreamAfterFailure(program, run, v);
    }
  }

  /** And if it is not closed, the harm is done by the first thread whose next batch breaks the
      command open: its turn, whole and well-formed, leaves a torn command on the tty. */
  lemma UnclosedFailureTears(program: Program, run: seq<State>, t: Thread) returns (longer: seq<State>)
    requires IsRun(program, run) && SendsWellFormed(program) && JustFailed(Last(run))
    requires var sent := Last(run).turns[|Last(run).turns| - 1].sent;
             && !Closed(sent)
             && t in Last(run).todo && Last(run).todo[t] != [] && Last(run).todo[t][0] == [Breaker(sent)]
    ensures IsRun(program, longer) && run <= longer && Torn(Last(longer).stream) == 1
  {
    hide ScanFrom, EndsInsideStart, Torn, Closed, WellFormed, JustFailed, Serialised, Breaker;
    var s := Last(run);
    JustFailedUnlocked(s);
    var sent := s.turns[|s.turns| - 1].sent;
    var locked := Extended(program, run, Acquire(t));
    var h := Last(locked).holder.value;
    assert h == Hold(t, [Breaker(sent)], 0, 0);
    longer := TurnFinishes(program, locked);
    assert h.batch[1..] == [] && Rest(h) == Breaker(sent);
    assert Last(longer).stream == s.stream + Breaker(sent);
    StreamAfterFailure(program, run, Breaker(sent));
    BreakerBreaks(sent);
  }

  lemma JustFailedUnlocked(s: State)
    requires JustFailed(s)
    ensures s.holder.None? && s.turns != []
  {}

  /** There are such runs: one thread's command is cut off behind its opening, and the next thread's
      turn is torn into it. */
  lemma FailureCanTear()
    ensures exists program, run :: SendsWellFormed(program) && IsRun(program, run) && run != [] &&
                                   Torn(Last(run).stream) == 1
  {
    var program: Program := map[0 := [[START + END]], 1 := [[FOREIGN + END]]];
    ExampleSends(program);
    hide SendsWellFormed, Torn, ScanFrom, IsRun;
    var run := CutOff(program);
    OpenStart();
    assert [START + END] != [FOREIGN + END];
    var longer := UnclosedFailureTears(program, run, 1);
    assert IsRun(program, longer);
  }

  lemma OpenStart()
    ensures ScanFrom(START, 0).open && !Closed(START) && Breaker(START) == FOREIGN + END
  {
    hide ScanFrom;
    assert START[0..3] == START && At(START, START, 0);
    FindAt(START, START, 0, 0);
    assert NextCommand(START, 0) == Unended(0);
    ScanOpen(START, 0);
  }

  lemma ExampleSends(program: Program)
    requires program == map[0 := [[START + END]], 1 := [[FOREIGN + END]]]
    ensures SendsWellFormed(program)
  {
    hide WellFormed, ScanFrom;
    OpenStart();
    BreakerWellFormed(START);
    FlattenOne(START + END);
    FlattenOne(FOREIGN + END);
    CommandWellFormed([]);
    assert START + [] + END == START + END;
  }

  /** Thread 0 takes the lock, writes the opening of its command, and fails. */
  lemma CutOff(program: Program) returns (run: seq<State>)
    requires program == map[0 := [[START + END]], 1 := [[FOREIGN + END]]]
    ensures IsRun(program, run) && run != [] && JustFailed(Last(run))
    ensures Last(run).turns[|Last(run).turns| - 1].sent == START
    ensures 1 in Last(run).todo && Last(run).todo[1] == [[FOREIGN + END]]
  {
    hide IsRun;
    run := [State([], program, None, [])];
    FirstState(program, run);
    run := Extended(program, run, Acquire(0));
    var s := Last(run);
    var h := Hold(0, [START + END], 0, 0);
    assert s.holder == Some(h) && s.todo[1] == [[FOREIGN + END]];
    for i := 0 to 3
      invariant IsRun(program, run) && run != [] && Last(run) == s.(stream := (START + END)[..i], holder := Some(h.(off := i)))
    {
      run := Extended(program, run, WriteByte);
      assert (START + END)[..i + 1] == (START + END)[..i] + [(START + END)[i]];
    }
    run := Extended(program, run, Fail);
    assert h.(off := 3).Sent() == START by {
      assert h.batch[..0] == [] && (START + END)[..3] == START;
    }
    assert Last(run).turns == [Turn(0, [START + END], START, true)];
  }

  lemma FirstState(program: Program, run: seq<State>)
    requires run == [State([], program, None, [])]
    ensures IsRun(program, run)
  {}
}
