/**
 The native input helper: which window the pointer is over is asked no more often than needed, and
 told to the engine only when it changed. Times are seconds and coordinates points, as real numbers.
 */
module PointerProbe {

  import opened Wrappers

  datatype Window = Window(number: nat, pid: int, layer: int, alpha: real, x: real, y: real, width: real, height: real) {
    predicate Contains(px: real, py: real) {
      px >= x && px < x + width && py >= y && py < y + height
    }

    /** An application's window that is really to be seen. */
    predicate Ordinary() {
      layer == 0 && alpha >= 0.05 && width > 1.0 && height > 1.0
    }
  }

  /** The list is front to back. */
  function WindowAt(windows: seq<Window>, x: real, y: real): Option<Window> {
    if windows == [] then None
    else if windows[0].Ordinary() && windows[0].Contains(x, y) then Some(windows[0])
    else WindowAt(windows[1..], x, y)
  }

  /** The frontmost ordinary window containing the point, if there is any. */
  lemma {:induction false} WindowAtIsFrontmost(windows: seq<Window>, x: real, y: real)
    ensures match WindowAt(windows, x, y)
            case None => forall k :: 0 <= k < |windows| ==> !(windows[k].Ordinary() && windows[k].Contains(x, y))
            case Some(w) => exists k :: 0 <= k < |windows| && windows[k] == w && w.Ordinary() && w.Contains(x, y) &&
                                        forall j :: 0 <= j < k ==> !(windows[j].Ordinary() && windows[j].Contains(x, y))
  {
    if windows != [] && !(windows[0].Ordinary() && windows[0].Contains(x, y)) {
      var rest := windows[1..];
      WindowAtIsFrontmost(rest, x, y);
      assert forall k :: 0 <= k < |rest| ==> rest[k] == windows[k + 1];
      if WindowAt(rest, x, y).Some? {
        var k :| 0 <= k < |rest| && rest[k] == WindowAt(rest, x, y).value && rest[k].Ordinary() && rest[k].Contains(x, y)
                 && forall j :: 0 <= j < k ==> !(rest[j].Ordinary() && rest[j].Contains(x, y));
        forall j | 0 <= j < k + 1 ensures !(windows[j].Ordinary() && windows[j].Contains(x, y)) {
          assert j > 0 ==> windows[j] == rest[j - 1];
        }
        assert windows[k + 1] == rest[k];
      } else {
        forall k | 0 <= k < |windows| ensures !(windows[k].Ordinary() && windows[k].Contains(x, y)) {
          assert k > 0 ==> windows[k] == rest[k - 1];
        }
      }
    }
  }

  const PROBE_INTERVAL := 0.08
  const PROBE_TRAVEL := 2.0
  const PROBE_STALE := 0.5
  const MOVE_INTERVAL := 0.008

  datatype Sighting = Sighting(x: real, y: real, at: real)

  /** The helper's memory: the last probe, its answer, whether any was told, and the last move. */
  datatype State = State(last: Option<Sighting>, window: Option<Window>, reported: bool, lastMove: real)

  const START := State(None, None, false, 0.0)

  function Square(x: real): real {
    x * x
  }

  predicate Due(s: State, x: real, y: real, now: real, force: bool) {
    s.last.None? ||
    var age := now - s.last.value.at;
    force || age >= PROBE_STALE ||
    (Square(x - s.last.value.x) + Square(y - s.last.value.y) > Square(PROBE_TRAVEL) && age >= PROBE_INTERVAL)
  }

  datatype Line =
    | WindowLine(window: Option<Window>)
    | MoveLine(x: real, y: real)
    | ScrollLine(x: real, y: real)

  /** An event of the window server while the helper is armed or not: `moved` is a move with no
      button down, `began` the start of a scroll gesture; `windows` is what is on the screen. */
  datatype Event =
    | Pointer(x: real, y: real, at: real, armed: bool, moved: bool, windows: seq<Window>)
    | Scroll(x: real, y: real, at: real, armed: bool, began: bool, windows: seq<Window>)

  /** A move that follows another too closely is dropped. */
  predicate Handled(s: State, e: Event) {
    e.armed && (e.Pointer? ==> !(e.at - s.lastMove < MOVE_INTERVAL && e.moved))
  }

  predicate Forced(e: Event) {
    e.Scroll? && e.began
  }

  predicate Probes(s: State, e: Event) {
    Handled(s, e) && Due(s, e.x, e.y, e.at, Forced(e))
  }

  function Next(s: State, e: Event): State {
    if !Handled(s, e) then s
    else
      var moved := if e.Pointer? then s.(lastMove := e.at) else s;
      if Probes(s, e) then
        moved.(last := Some(Sighting(e.x, e.y, e.at)), window := WindowAt(e.windows, e.x, e.y), reported := true)
      else moved
  }

  function Emitted(s: State, e: Event): seq<Line> {
    if !Handled(s, e) then []
    else
      var answer := WindowAt(e.windows, e.x, e.y);
      (if Probes(s, e) && (!s.reported || answer != s.window) then [WindowLine(answer)] else [])
      + [if e.Pointer? then MoveLine(e.x, e.y) else ScrollLine(e.x, e.y)]
  }

  class Probe {
    var last: Option<Sighting>
    var window: Option<Window>
    var reported: bool

    constructor ()
      ensures last == None && window == None && !reported
    {
      last, window, reported := None, None, false;
    }

    /** Whether a probe is due now. */
    predicate IsDue(x: real, y: real, now: real, force: bool)
      reads this
    {
      if last.None? then true
      else
        var age := now - last.value.at;
        force || age >= PROBE_STALE ||
        (Square(x - last.value.x) + Square(y - last.value.y) > Square(PROBE_TRAVEL) && age >= PROBE_INTERVAL)
    }

    /** What the window list said at this place and time; it is told on only if it is news. */
    method Record(x: real, y: real, now: real, answer: Option<Window>) returns (news: Option<Option<Window>>)
      modifies this
      ensures last == Some(Sighting(x, y, now)) && window == answer && reported
      ensures news == if !old(reported) || answer != old(window) then Some(answer) else None
    {
      last := Some(Sighting(x, y, now));
      var changed := !reported || answer != window;
      reported := true;
      window := answer;
      news := if changed then Some(answer) else None;
    }
  }

  class Helper {
    const probe: Probe
    var lastMove: real

    constructor ()
      ensures Abstract() == START && fresh(probe)
    {
      probe := new Probe();
      lastMove := 0.0;
    }

    function Abstract(): State
      reads this, probe
    {
      State(probe.last, probe.window, probe.reported, lastMove)
    }

    method AskWindow(x: real, y: real, at: real, force: bool, windows: seq<Window>) returns (lines: seq<Line>)
      modifies probe
      ensures var s := old(Abstract());
              var answer := WindowAt(windows, x, y);
              && Abstract() == (if Due(s, x, y, at, force)
                                then s.(last := Some(Sighting(x, y, at)), window := answer, reported := true) else s)
              && lines == (if Due(s, x, y, at, force) && (!s.reported || answer != s.window)
                           then [WindowLine(answer)] else [])
    {
      if !probe.IsDue(x, y, at, force) {
        return [];
      }
      var news := probe.Record(x, y, at, WindowAt(windows, x, y));
      lines := if news.Some? then [WindowLine(news.value)] else [];
    }

    method OnPointer(e: Event) returns (lines: seq<Line>)
      requires e.Pointer?
      modifies this, probe
      ensures Abstract() == Next(old(Abstract()), e) && lines == Emitted(old(Abstract()), e)
    {
      if !e.armed || (e.at - lastMove < MOVE_INTERVAL && e.moved) {
        return [];
      }
      lastMove := e.at;
      lines := AskWindow(e.x, e.y, e.at, false, e.windows);
      lines := lines + [MoveLine(e.x, e.y)];
    }

    method OnScroll(e: Event) returns (lines: seq<Line>)
      requires e.Scroll?
      modifies this, probe
      ensures Abstract() == Next(old(Abstract()), e) && lines == Emitted(old(Abstract()), e)
    {
      if !e.armed {
        return [];
      }
      lines := AskWindow(e.x, e.y, e.at, e.began, e.windows);
      lines := lines + [ScrollLine(e.x, e.y)];
    }
  }

  // Whole runs.

  function After(events: seq<Event>): State {
    if events == [] then START else Next(After(events[..|events| - 1]), events[|events| - 1])
  }

  function Told(events: seq<Event>): seq<Line> {
    if events == [] then []
    else Told(events[..|events| - 1]) + Emitted(After(events[..|events| - 1]), events[|events| - 1])
  }

  /** The event that is probed at, and what it answers. */
  predicate ProbedAt(events: seq<Event>, i: nat) {
    i < |events| && Probes(After(events[..i]), events[i])
  }

  function AnswerAt(events: seq<Event>, i: nat): Option<Window>
    requires i < |events|
  {
    WindowAt(events[i].windows, events[i].x, events[i].y)
  }

  ghost predicate LastProbe(events: seq<Event>, j: nat) {
    ProbedAt(events, j) && forall i :: j < i < |events| ==> !ProbedAt(events, i)
  }

  /** The helper remembers the last probe, if there was one. */
  lemma {:induction false} RemembersLastProbe(events: seq<Event>) returns (j: nat)
    ensures var s := After(events);
            && (s.last.None? ==> !s.reported && s.window.None? && forall i :: !ProbedAt(events, i))
            && (s.last.Some? ==>
                  && LastProbe(events, j) && s.reported
                  && s.last.value == Sighting(events[j].x, events[j].y, events[j].at)
                  && s.window == AnswerAt(events, j))
    decreases |events|
  {
    hide WindowAt, Due;
    j := 0;
    if events != [] {
      var n := |events| - 1;
      var before := events[..n];
      j := RemembersLastProbe(before);
      forall i: nat | i < n ensures ProbedAt(events, i) == ProbedAt(before, i) {
        assert before[..i] == events[..i];
      }
      if Probes(After(before), events[n]) {
        j := n;
      }
    }
  }

  /** The pointer event `j` was told: it added a line that is no window line. */
  ghost predicate PointerTold(events: seq<Event>, j: nat) {
    j < |events| && events[j].Pointer? && Told(events[..j + 1]) != Told(events[..j])
  }

  lemma ToldIffHandled(events: seq<Event>, j: nat)
    requires j < |events|
    ensures Told(events[..j + 1]) != Told(events[..j]) <==> Handled(After(events[..j]), events[j])
    ensures After(events[..j + 1]) == Next(After(events[..j]), events[j])
  {
    hide WindowAt, Due, Probes;
    var run := events[..j + 1];
    assert run[..j] == events[..j] && run[j] == events[j];
    var lines := Emitted(After(events[..j]), events[j]);
    assert lines != [] <==> Handled(After(events[..j]), events[j]);
    assert |Told(run)| == |Told(events[..j])| + |lines|;
    assert lines == [] ==> Told(run) == Told(events[..j]);
  }

  function MoveBefore(events: seq<Event>, n: nat): real
    requires n <= |events|
  {
    After(events[..n]).lastMove
  }

  /** When the last move was told. */
  lemma {:induction false} LastMoveTold(events: seq<Event>, n: nat) returns (j: nat)
    requires n <= |events|
    ensures if forall i :: 0 <= i < n ==> !PointerTold(events, i) then MoveBefore(events, n) == 0.0
            else j < n && PointerTold(events, j) && MoveBefore(events, n) == events[j].at &&
                 forall i :: j < i < n ==> !PointerTold(events, i)
    decreases n
  {
    hide PointerTold, MoveBefore;
    j := 0;
    if n == 0 {
      NothingMoved(events);
    } else {
      j := LastMoveTold(events, n - 1);
      MoveIs(events, n - 1);
      if PointerTold(events, n - 1) {
        j := n - 1;
      }
    }
  }

  lemma NothingMoved(events: seq<Event>)
    ensures MoveBefore(events, 0) == 0.0
  {
    assert events[..0] == [];
  }

  lemma MoveIs(events: seq<Event>, n: nat)
    requires n < |events|
    ensures MoveBefore(events, n + 1) == if PointerTold(events, n) then events[n].at else MoveBefore(events, n)
  {
    ToldIffHandled(events, n);
    PointerToldIs(events, n);
    hide WindowAt, Due, PointerTold, After, Handled;
  }

  lemma PointerToldIs(events: seq<Event>, j: nat)
    requires j < |events|
    ensures PointerTold(events, j) <==> events[j].Pointer? && Handled(After(events[..j]), events[j])
  {
    ToldIffHandled(events, j);
  }

  /** Exactly which events are told: while armed, every scroll, every drag, and every move that comes no
      sooner than the interval after the last told pointer event, or after the clock's start. */
  lemma TellsIff(events: seq<Event>, i: nat)
    requires InOrder(events) && i < |events|
    ensures Told(events[..i + 1]) != Told(events[..i]) <==>
            && events[i].armed
            && (events[i].Pointer? && events[i].moved ==>
                  if exists j :: 0 <= j < i && PointerTold(events, j)
                  then forall j :: 0 <= j < i && PointerTold(events, j) ==> events[i].at - events[j].at >= 0.008
                  else events[i].at >= 0.008)
  {
    hide WindowAt, Due, PointerTold;
    ToldIffHandled(events, i);
    var last := LastMoveTold(events, i);
    if exists j :: 0 <= j < i && PointerTold(events, j) {
      forall j | 0 <= j < i && PointerTold(events, j) ensures events[j].at <= events[last].at {
        assert j <= last;
      }
    }
  }

  /** The answer at one event will not do at a later one. */
  ghost predicate Stale(asked: Event, e: Event) {
    var age, dx, dy := e.at - asked.at, e.x - asked.x, e.y - asked.y;
    (e.Scroll? && e.began) || age >= 0.5 || (dx * dx + dy * dy > 4.0 && age >= 0.08)
  }

  /** Exactly when the window list is asked: at a told event, if it was never asked before, a scroll gesture
      begins, the last answer is half a second old, or the pointer is more than two points away and the
      answer eight hundredths of a second old. */
  lemma ProbesIff(events: seq<Event>, i: nat)
    requires i < |events|
    ensures ProbedAt(events, i) ==> Told(events[..i + 1]) != Told(events[..i])
    ensures (forall j :: 0 <= j < i ==> !ProbedAt(events, j)) ==>
              (ProbedAt(events, i) <==> Told(events[..i + 1]) != Told(events[..i]))
    ensures forall j: nat :: LastProbe(events[..i], j) ==>
              (ProbedAt(events, i) <==> Told(events[..i + 1]) != Told(events[..i]) && Stale(events[j], events[i]))
  {
    ToldIffHandled(events, i);
    ProbesWhen(After(events[..i]), events[i]);
    hide WindowAt, Told, After, Due, Handled, Probes;
    var before := events[..i];
    var last := RemembersLastProbe(before);
    forall j: nat | j < i ensures ProbedAt(before, j) == ProbedAt(events, j) {
      assert before[..j] == events[..j];
    }
    forall j: nat | LastProbe(before, j) ensures After(before).last.Some? && j == last {
      assert ProbedAt(before, j);
    }
  }

  lemma ProbesWhen(s: State, e: Event)
    ensures Probes(s, e) ==> Handled(s, e)
    ensures s.last.None? ==> (Probes(s, e) <==> Handled(s, e))
    ensures s.last.Some? ==> forall asked: Event :: s.last.value == Sighting(asked.x, asked.y, asked.at) ==>
              (Probes(s, e) <==> Handled(s, e) && Stale(asked, e))
  {}

  /** What a consumer holds that applies the window lines. */
  function Held(lines: seq<Line>): Option<Option<Window>> {
    if lines == [] then None
    else
      var last := lines[|lines| - 1];
      if last.WindowLine? then Some(last.window) else Held(lines[..|lines| - 1])
  }

  lemma {:induction false} HeldAppend(a: seq<Line>, b: seq<Line>)
    ensures Held(a + b) == if Held(b).Some? then Held(b) else Held(a)
    decreases |b|
  {
    if b == [] {
      assert a + b == a;
    } else {
      assert (a + b)[..|a + b| - 1] == a + b[..|b| - 1];
      HeldAppend(a, b[..|b| - 1]);
    }
  }

  lemma EmittedHolds(s: State, e: Event)
    ensures Held(Emitted(s, e))
         == if Probes(s, e) && (!s.reported || Next(s, e).window != s.window) then Some(Next(s, e).window) else None
  {
    hide WindowAt, Due;
    var lines := Emitted(s, e);
    if lines != [] {
      var front := lines[..|lines| - 1];
      assert front == [] || (|front| == 1 && front[..0] == []);
    }
  }

  /** After any run the consumer holds exactly what the last probe answered. */
  lemma {:induction false} ConsumerAgrees(events: seq<Event>)
    ensures Held(Told(events)) == if After(events).reported then Some(After(events).window) else None
    decreases |events|
  {
    hide WindowAt, Due, Emitted;
    if events != [] {
      var before, e := events[..|events| - 1], events[|events| - 1];
      ConsumerAgrees(before);
      EmittedHolds(After(before), e);
      HeldAppend(Told(before), Emitted(After(before), e));
    }
  }

  /** Of two window lines with none between them the second says something new. */
  ghost predicate NoRepeats(lines: seq<Line>) {
    forall i :: 0 <= i < |lines| && lines[i].WindowLine? ==> Held(lines[..i]) != Some(lines[i].window)
  }

  lemma {:induction false} AnswersAreNews(events: seq<Event>)
    ensures NoRepeats(Told(events))
    decreases |events|
  {
    hide WindowAt, Due, Held;
    if events != [] {
      var before, e := events[..|events| - 1], events[|events| - 1];
      AnswersAreNews(before);
      ConsumerAgrees(before);
      var a: seq<Line> := Told(before);
      var b: seq<Line> := Emitted(After(before), e);
      forall i: nat | i < |a + b| && (a + b)[i].WindowLine? ensures Held((a + b)[..i]) != Some((a + b)[i].window) {
        if i < |a| {
          assert (a + b)[..i] == a[..i];
        } else {
          assert b[i - |a|].WindowLine?;
          assert i == |a| && (a + b)[..i] == a;
        }
      }
    }
  }

  ghost predicate InOrder(events: seq<Event>) {
    forall i, j :: 0 <= i <= j < |events| ==> events[i].at <= events[j].at
  }

  /** Every move and scroll told is told with an answer younger than the stale age in the consumer's
      hands: it is the answer of a probe at this event or shortly before it. */
  lemma EveryLineIsFresh(events: seq<Event>, i: nat) returns (j: nat)
    requires InOrder(events) && i < |events| && Handled(After(events[..i]), events[i])
    ensures j <= i && ProbedAt(events, j) && 0.0 <= events[i].at - events[j].at < PROBE_STALE
    ensures Held(Told(events[..i + 1])) == Some(AnswerAt(events, j))
    ensures var lines := Told(events[..i + 1]);
            lines != [] && lines[|lines| - 1]
                           == if events[i].Pointer? then MoveLine(events[i].x, events[i].y)
                              else ScrollLine(events[i].x, events[i].y)
  {
    hide WindowAt, Held;
    var run := events[..i + 1];
    assert run[..i] == events[..i] && run[i] == events[i];
    j := RemembersLastProbe(run);
    ConsumerAgrees(run);
    assert run[j] == events[j] && run[..j] == events[..j];
    if !Probes(After(run[..i]), run[i]) {
      assert !Due(After(run[..i]), run[i].x, run[i].y, run[i].at, Forced(run[i]));
      assert After(run).last == After(run[..i]).last;
    }
  }

  /** Of any two probes, the later one was forced or comes no sooner than the interval allows. */
  lemma ProbesArePaced(events: seq<Event>, i: nat, k: nat)
    requires InOrder(events) && i < k && ProbedAt(events, i) && ProbedAt(events, k) && !Forced(events[k])
    ensures events[k].at - events[i].at >= PROBE_INTERVAL
  {
    hide WindowAt;
    var before := events[..k];
    var j := RemembersLastProbe(before);
    assert before[..i] == events[..i];
    assert ProbedAt(before, i);
    assert before[j] == events[j];
    assert i <= j;
    assert events[i].at <= events[j].at;
  }

  /** The pointer line before a move line, if any, is no closer than a frame. */
  lemma {:induction false} LastMoveIs(events: seq<Event>, i: nat)
    requires InOrder(events) && i < |events| && events[i].Pointer? && Handled(After(events[..i]), events[i])
    ensures After(events).lastMove >= events[i].at
    decreases |events|
  {
    hide WindowAt, Due;
    var n := |events| - 1;
    if i < n {
      var before := events[..n];
      assert before[..i] == events[..i];
      LastMoveIs(before, i);
    }
  }

  /** Moves with no button down are told at most once a frame. */
  lemma MovesArePaced(events: seq<Event>, i: nat, k: nat)
    requires InOrder(events) && i < k < |events| && events[i].Pointer? && events[k].Pointer? && events[k].moved
    requires Handled(After(events[..i]), events[i]) && Handled(After(events[..k]), events[k])
    ensures events[k].at - events[i].at >= MOVE_INTERVAL
  {
    var before := events[..k];
    assert before[..i] == events[..i];
    LastMoveIs(before, i);
  }
}
