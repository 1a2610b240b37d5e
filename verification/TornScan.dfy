/**
 The definition of the defect the pane writer prevents: a Kitty graphics command with another
 writer's CSI spliced inside it, as `count_torn_commands` counts it.
 */
module TornScan {

  import opened Octets
  import opened Wrappers
  import opened Sequences

  const ESC: byte := 0x1b
  const START: seq<byte> := [0x1b, 0x5f, 0x47]
  const END: seq<byte> := [0x1b, 0x5c]
  const FOREIGN: seq<byte> := [0x1b, 0x5b]

  /** Where a scan stands when no further whole command is found: how many torn commands it
      counted, where its cursor is, and whether a command starts there that never ends. */
  datatype Scan = Scan(torn: nat, cursor: nat, open: bool)

  /** The next command from a position: none, one that never ends, or a whole one. */
  datatype Next = Nothing | Unended(begin: nat) | Whole(begin: nat, end: nat)

  ghost function NextCommand(stream: seq<byte>, cursor: nat): (r: Next)
    ensures r.Whole? ==> cursor <= r.begin && r.begin + |START| <= r.end && r.end + |END| <= |stream|
  {
    match Find(stream, START, cursor)
    case None => Nothing
    case Some(begin) =>
      match Find(stream, END, begin + |START|)
      case None => Unended(begin)
      case Some(end) => Whole(begin, end)
  }

  /** A foreign CSI starts between the two ends of a command. */
  ghost predicate Spliced(stream: seq<byte>, begin: nat, end: nat) {
    exists k :: begin + |START| <= k < end && At(stream, FOREIGN, k)
  }

  ghost function ScanFrom(stream: seq<byte>, cursor: nat): (r: Scan)
    requires cursor <= |stream|
    ensures cursor <= r.cursor <= |stream|
    decreases |stream| - cursor
  {
    match NextCommand(stream, cursor)
    case Nothing => Scan(0, cursor, false)
    case Unended(_) => Scan(0, cursor, true)
    case Whole(begin, end) =>
      var rest := ScanFrom(stream, end + |END|);
      rest.(torn := rest.torn + if Spliced(stream, begin, end) then 1 else 0)
  }

  ghost function Torn(stream: seq<byte>): nat {
    ScanFrom(stream, 0).torn
  }

  /** What the scan makes of the only command left. */
  lemma ScanLast(s: seq<byte>, cursor: nat)
    requires cursor <= |s|
    requires var next := NextCommand(s, cursor);
             next.Whole? && Find(s, START, next.end + |END|).None?
    ensures var next := NextCommand(s, cursor);
            ScanFrom(s, cursor) == Scan(if Spliced(s, next.begin, next.end) then 1 else 0, next.end + |END|, false)
  {
    assert NextCommand(s, NextCommand(s, cursor).end + |END|) == Nothing;
  }

  lemma NextIs(stream: seq<byte>, cursor: nat)
    ensures var begin := Find(stream, START, cursor);
            NextCommand(stream, cursor) ==
            if begin.None? then Nothing
            else var end := Find(stream, END, begin.value + |START|);
                 if end.None? then Unended(begin.value) else Whole(begin.value, end.value)
  {}

  /** The scanner's loop. */
  method CountTornCommands(stream: seq<byte>) returns (torn: nat)
    ensures torn == Torn(stream)
  {
    hide NextCommand;
    torn := 0;
    var cursor := 0;
    var begin := FindFirst(stream, START, cursor);
    while begin.Some?
      invariant cursor <= |stream|
      invariant begin == Find(stream, START, cursor)
      invariant torn + ScanFrom(stream, cursor).torn == Torn(stream)
      decreases |stream| - cursor
    {
      var end := FindFirst(stream, END, begin.value + |START|);
      NextIs(stream, cursor);
      if end.None? {
        break;
      }
      var foreign := FindFirst(stream, FOREIGN, begin.value + |START|);
      if foreign.Some? && foreign.value < end.value {
        torn := torn + 1;
      }
      cursor := end.value + |END|;
      begin := FindFirst(stream, START, cursor);
    }
    NextIs(stream, cursor);
  }

  /** The stream stops in the middle of a command's opening bytes. */
  predicate EndsInsideStart(stream: seq<byte>) {
    (|stream| >= 1 && stream[|stream| - 1] == START[0]) ||
    (|stream| >= 2 && stream[|stream| - 2] == START[0] && stream[|stream| - 1] == START[1])
  }

  /** Nothing is left half-written: no command without its terminator, and no opening begun. */
  ghost predicate Closed(stream: seq<byte>) {
    !ScanFrom(stream, 0).open && !EndsInsideStart(stream)
  }

  /** A unit a writer may send: whole commands only, none of them torn. */
  ghost predicate WellFormed(unit: seq<byte>) {
    Closed(unit) && Torn(unit) == 0
  }

  /** A command found in `u` is found, and judged alike, whatever follows `u`. */
  lemma NextPrefix(u: seq<byte>, v: seq<byte>, cursor: nat)
    requires NextCommand(u, cursor).Whole?
    ensures NextCommand(u + v, cursor) == NextCommand(u, cursor)
    ensures var next := NextCommand(u, cursor);
            Spliced(u + v, next.begin, next.end) == Spliced(u, next.begin, next.end)
  {
    var next := NextCommand(u, cursor);
    FindLeft(u, v, START, cursor);
    FindLeft(u, v, END, next.begin + |START|);
    forall k | k < next.end ensures At(u + v, FOREIGN, k) <==> At(u, FOREIGN, k) {
      AtLeft(u, v, FOREIGN, k);
    }
  }

  /** Appending bytes does not change what the scan did up to where it stopped. */
  lemma {:induction false} ScanPrefix(u: seq<byte>, v: seq<byte>, cursor: nat)
    requires cursor <= |u|
    ensures var stop := ScanFrom(u, cursor);
            ScanFrom(u + v, cursor).torn == stop.torn + ScanFrom(u + v, stop.cursor).torn &&
            ScanFrom(u + v, cursor).open == ScanFrom(u + v, stop.cursor).open
    decreases |u| - cursor
  {
    hide NextCommand, Spliced;
    var next := NextCommand(u, cursor);
    if next.Whole? {
      NextPrefix(u, v, cursor);
      ScanPrefix(u, v, next.end + |END|);
    }
  }

  function Shift(next: Next, offset: nat): Next {
    match next
    case Nothing => Nothing
    case Unended(begin) => Unended(offset + begin)
    case Whole(begin, end) => Whole(offset + begin, offset + end)
  }

  lemma NextSuffix(u: seq<byte>, v: seq<byte>, cursor: nat)
    ensures NextCommand(u + v, |u| + cursor) == Shift(NextCommand(v, cursor), |u|)
  {
    FindRight(u, v, START, |u| + cursor);
    var begin := Find(v, START, cursor);
    if begin.Some? {
      FindRight(u, v, END, |u| + begin.value + |START|);
    }
  }

  lemma SplicedSuffix(u: seq<byte>, v: seq<byte>, begin: nat, end: nat)
    ensures Spliced(u + v, |u| + begin, |u| + end) == Spliced(v, begin, end)
  {
    forall k | |u| <= k ensures At(u + v, FOREIGN, k) <==> At(v, FOREIGN, k - |u|) {
      AtRight(u, v, FOREIGN, k);
    }
    if Spliced(v, begin, end) {
      var k :| begin + |START| <= k < end && At(v, FOREIGN, k);
      assert At(u + v, FOREIGN, |u| + k);
    }
  }

  /** Scanning from inside the right part is scanning the right part. */
  lemma {:induction false} ScanSuffix(u: seq<byte>, v: seq<byte>, cursor: nat)
    requires cursor <= |v|
    ensures ScanFrom(u + v, |u| + cursor).torn == ScanFrom(v, cursor).torn
    ensures ScanFrom(u + v, |u| + cursor).open == ScanFrom(v, cursor).open
    decreases |v| - cursor
  {
    hide NextCommand, Spliced;
    NextSuffix(u, v, cursor);
    var next := NextCommand(v, cursor);
    if next.Whole? {
      SplicedSuffix(u, v, next.begin, next.end);
      ScanSuffix(u, v, next.end + |END|);
      assert |u| + (next.end + |END|) == |u| + next.end + |END|;
    }
  }

  /** The scan stops where no further whole command is. */
  lemma {:induction false} StopsAt(u: seq<byte>, cursor: nat)
    requires cursor <= |u|
    ensures var stop := ScanFrom(u, cursor);
            !NextCommand(u, stop.cursor).Whole? && stop.open == NextCommand(u, stop.cursor).Unended?
    decreases |u| - cursor
  {
    hide NextCommand, Spliced;
    var next := NextCommand(u, cursor);
    if next.Whole? {
      StopsAt(u, next.end + |END|);
    }
  }

  /** An opening that runs over the end of `u` leaves `u` inside it. */
  lemma StraddlingStart(u: seq<byte>, v: seq<byte>, j: nat)
    requires At(u + v, START, j) && j < |u| < j + |START|
    ensures EndsInsideStart(u)
  {
    AtIndex(u + v, START, j, j);
    if |u| == j + 2 {
      AtIndex(u + v, START, j, j + 1);
    }
  }

  /** Where a closed unit's scan stopped, nothing starts before the unit's end. */
  lemma ClosedGap(u: seq<byte>, v: seq<byte>, j: nat)
    requires Closed(u)
    requires ScanFrom(u, 0).cursor <= j < |u|
    ensures !At(u + v, START, j)
  {
    hide ScanFrom;
    StopsAt(u, 0);
    if j + |START| <= |u| {
      AtLeft(u, v, START, j);
    } else if At(u + v, START, j) {
      StraddlingStart(u, v, j);
    }
  }

  lemma ScanSkip(s: seq<byte>, from: nat, to: nat)
    requires from <= to <= |s|
    requires forall j :: from <= j < to ==> !At(s, START, j)
    ensures ScanFrom(s, from).torn == ScanFrom(s, to).torn
    ensures ScanFrom(s, from).open == ScanFrom(s, to).open
  {
    assert Find(s, START, from) == Find(s, START, to) by {
      FindSkip(s, START, from, to);
    }
    NextIs(s, from);
    NextIs(s, to);
    ScansAlike(s, from, to);
  }

  lemma ScansAlike(s: seq<byte>, from: nat, to: nat)
    requires from <= |s| && to <= |s| && NextCommand(s, from) == NextCommand(s, to)
    ensures ScanFrom(s, from).torn == ScanFrom(s, to).torn
    ensures ScanFrom(s, from).open == ScanFrom(s, to).open
  {
    hide NextCommand, Spliced;
  }

  /** Two units that do not end inside an opening do not make one together that does. */
  lemma JoinedEndings(u: seq<byte>, v: seq<byte>)
    requires EndsInsideStart(u + v)
    ensures EndsInsideStart(u) || EndsInsideStart(v)
  {
    if |v| == 0 {
      assert u + v == u;
    }
  }

  /** The count is additive over a closed unit, whatever follows it. */
  lemma ClosedAdds(u: seq<byte>, v: seq<byte>)
    requires Closed(u)
    ensures Torn(u + v) == Torn(u) + Torn(v)
    ensures Closed(v) ==> Closed(u + v)
  {
    hide ScanFrom, NextCommand, EndsInsideStart;
    var stop := ScanFrom(u, 0).cursor;
    ScanPrefix(u, v, 0);
    forall j | stop <= j < |u| ensures !At(u + v, START, j) {
      ClosedGap(u, v, j);
    }
    ScanSkip(u + v, stop, |u|);
    ScanSuffix(u, v, 0);
    if EndsInsideStart(u + v) {
      JoinedEndings(u, v);
    }
  }

  /** Growing a stream never removes a torn command. */
  lemma TornMonotone(u: seq<byte>, v: seq<byte>)
    ensures Torn(u) <= Torn(u + v)
  {
    ScanPrefix(u, v, 0);
  }

  /** What can follow an unclosed unit, itself well formed, and make the count wrong: the rest of
      the opening if one was begun, a CSI and a terminator. */
  ghost function Breaker(u: seq<byte>): seq<byte> {
    if ScanFrom(u, 0).open then FOREIGN + END
    else if |u| >= 1 && u[|u| - 1] == START[0] then START[1..] + FOREIGN + END
    else START[2..] + FOREIGN + END
  }

  lemma BreakerWellFormed(u: seq<byte>)
    ensures WellFormed(Breaker(u))
  {
    TailWellFormed(FOREIGN + END);
    TailWellFormed(START[1..] + FOREIGN + END);
    TailWellFormed(START[2..] + FOREIGN + END);
  }

  /** No opening begins in text without its first two bytes side by side. */
  lemma TailWellFormed(v: seq<byte>)
    requires |v| >= 2 && v[|v| - 2] == 0x1b && v[|v| - 1] == 0x5c
    requires forall k :: 0 <= k < |v| - 1 ==> !(v[k] == 0x1b && v[k + 1] == 0x5f)
    ensures WellFormed(v)
  {
    forall j ensures !At(v, START, j) {
      if At(v, START, j) {
        AtIndex(v, START, j, j);
        AtIndex(v, START, j, j + 1);
      }
    }
    assert NextCommand(v, 0) == Nothing;
  }

  /** An open command is torn by a CSI and a terminator. */
  lemma OpenBreaks(u: seq<byte>)
    requires ScanFrom(u, 0).open
    ensures Torn(u + (FOREIGN + END)) == Torn(u) + 1
  {
    hide ScanFrom, Spliced;
    var v := FOREIGN + END;
    var s := u + v;
    var stop := ScanFrom(u, 0).cursor;
    StopsAt(u, 0);
    ScanPrefix(u, v, 0);
    var begin := Find(u, START, stop).value;
    FindLeft(u, v, START, stop);
    TailEndsCommand(u, v, begin);
    assert NextCommand(s, stop) == Whole(begin, |s| - 2);
    ScanLast(s, stop);
  }

  /** An opening that was begun becomes an open command when the rest of it arrives. */
  lemma OpeningCompleted(u: seq<byte>, k: nat)
    requires !ScanFrom(u, 0).open
    requires 1 <= k <= 2 && BeginsOpening(u, k)
    ensures ScanFrom(u + START[k..], 0).open
    ensures Torn(u + START[k..]) == Torn(u)
  {
    hide ScanFrom, Spliced;
    var w := u + START[k..];
    var stop := ScanFrom(u, 0).cursor;
    StopsAt(u, 0);
    ScanPrefix(u, START[k..], 0);
    CursorBeforeOpening(u, 0, k);
    var begin := |u| - k;
    OpeningIsFirst(u, k, stop);
    FindAt(w, START, stop, begin);
    assert NextCommand(w, stop) == Unended(begin);
    ScanOpen(w, stop);
  }

  /** The stream ends in the first `k` bytes of an opening, one or two. */
  predicate BeginsOpening(u: seq<byte>, k: nat) {
    k <= |u| && (k >= 1 ==> u[|u| - k] == START[0]) && (k >= 2 ==> u[|u| - k + 1] == START[1])
  }

  lemma OpeningIsFirst(u: seq<byte>, k: nat, stop: nat)
    requires 1 <= k <= 2 && BeginsOpening(u, k) && stop <= |u| - k
    requires !NextCommand(u, stop).Whole? && !NextCommand(u, stop).Unended?
    ensures At(u + START[k..], START, |u| - k)
    ensures forall j :: stop <= j < |u| - k ==> !At(u + START[k..], START, j)
  {
    var w, begin := u + START[k..], |u| - k;
    assert w[begin] == START[0];
    assert w[begin + 1] == START[1] by {
      if k == 1 { assert w[|u|] == START[1..][0]; }
    }
    assert w[begin + 2] == START[k..][2 - k];
    assert w[begin..begin + 3] == START;
    forall j | stop <= j < begin ensures !At(w, START, j) {
      if At(w, START, j) {
        if j + 3 <= |u| {
          AtLeft(u, START[k..], START, j);
        } else {
          AtIndex(w, START, j, begin);
        }
      }
    }
  }

  lemma ScanNothing(s: seq<byte>, cursor: nat)
    requires cursor <= |s| && NextCommand(s, cursor).Nothing?
    ensures ScanFrom(s, cursor) == Scan(0, cursor, false)
  {}

  lemma ScanOpen(s: seq<byte>, cursor: nat)
    requires cursor <= |s| && NextCommand(s, cursor).Unended?
    ensures ScanFrom(s, cursor) == Scan(0, cursor, true)
  {}

  lemma BreakerBreaks(u: seq<byte>)
    requires !Closed(u)
    ensures Torn(u + Breaker(u)) == Torn(u) + 1
  {
    hide ScanFrom;
    if ScanFrom(u, 0).open {
      OpenBreaks(u);
    } else {
      var k := if |u| >= 1 && u[|u| - 1] == START[0] then 1 else 2;
      OpeningCompleted(u, k);
      OpenBreaks(u + START[k..]);
      assert u + START[k..] + (FOREIGN + END) == u + Breaker(u);
    }
  }

  /** A command left open by `u` is closed, torn, by a CSI and a terminator. */
  lemma TailEndsCommand(u: seq<byte>, v: seq<byte>, begin: nat)
    requires v == FOREIGN + END
    requires begin + 3 <= |u|
    requires Find(u, END, begin + 3).None?
    ensures Find(u + v, END, begin + 3) == Some(|u| + 2)
    ensures Spliced(u + v, begin, |u| + 2)
  {
    var s := u + v;
    assert s[|u| + 2..|u| + 4] == END;
    assert At(s, END, |u| + 2);
    forall j | begin + 3 <= j < |u| + 2 ensures !At(s, END, j) {
      if j + 2 <= |u| {
        AtLeft(u, v, END, j);
      } else {
        assert s[j + 1] == 0x1b || s[j + 1] == 0x5b;
        if At(s, END, j) { AtIndex(s, END, j, j + 1); }
      }
    }
    FindAt(s, END, begin + 3, |u| + 2);
    assert s[|u|..|u| + 2] == FOREIGN;
    assert At(s, FOREIGN, |u|);
  }

  /** The scan's cursor is past no byte of an opening the stream ends with. */
  lemma {:induction false} CursorBeforeOpening(u: seq<byte>, cursor: nat, k: nat)
    requires cursor <= |u| && 1 <= k <= 2 && BeginsOpening(u, k)
    requires cursor <= |u| - k
    ensures ScanFrom(u, cursor).cursor <= |u| - k
    decreases |u| - cursor
  {
    hide At;
    var next := NextCommand(u, cursor);
    if next.Whole? {
      NextIs(u, cursor);
      AtIndex(u, END, next.end, next.end);
      AtIndex(u, END, next.end, next.end + 1);
      assert next.end + 1 != |u| - k && next.end + 2 <= |u|;
      CursorBeforeOpening(u, next.end + |END|, k);
    }
  }

  /** Being closed is exactly what makes a unit countable on its own: a unit is closed if and only
      if no well-formed continuation can change how many torn commands it stands for. */
  lemma ClosedIffHarmless(u: seq<byte>)
    ensures Closed(u) <==> forall v :: WellFormed(v) ==> Torn(u + v) == Torn(u)
  {
    if Closed(u) {
      forall v | WellFormed(v) ensures Torn(u + v) == Torn(u) {
        ClosedAdds(u, v);
      }
    } else {
      BreakerWellFormed(u);
      BreakerBreaks(u);
    }
  }

  /** Any number of well-formed units in a row is well formed. */
  lemma {:induction false} UnitsWellFormed(units: seq<seq<byte>>)
    requires forall i :: 0 <= i < |units| ==> WellFormed(units[i])
    ensures WellFormed(Flatten(units))
  {
    if units != [] {
      UnitsWellFormed(units[1..]);
      ClosedAdds(units[0], Flatten(units[1..]));
    }
  }

  /** A command is well formed if there is no ESC in its body. */
  lemma CommandWellFormed(body: seq<byte>)
    requires ESC !in body
    ensures WellFormed(START + body + END)
  {
    hide ScanFrom;
    var s, e := START + body + END, |START| + |body|;
    forall k | 0 <= k < |s| ensures s[k] == ESC <==> k == 0 || k == e {
      if 3 <= k < e { assert s[k] == body[k - 3]; }
    }
    assert s[0] == 0x1b && s[1] == 0x5f && s[2] == 0x47 && s[e] == 0x1b && s[e + 1] == 0x5c;
    assert s[0..3] == START && s[e..e + 2] == END;
    assert At(s, START, 0) && At(s, END, e);
    FindAt(s, START, 0, 0);
    NoEscNoMatch(s, END, 3, e);
    FindAt(s, END, 3, e);
    assert NextCommand(s, 0) == Whole(0, e);
    NoEscNoMatch(s, FOREIGN, 3, e);
    FindNone(s, START, e + 2);
    ScanLast(s, 0);
  }

  /** Nothing that begins with an ESC is found where there is none. */
  lemma NoEscNoMatch(s: seq<byte>, pattern: seq<byte>, from: nat, to: nat)
    requires pattern == START || pattern == END || pattern == FOREIGN
    requires to <= |s| && forall k :: from <= k < to ==> s[k] != ESC
    ensures forall k :: from <= k < to ==> !At(s, pattern, k)
  {
    forall k | from <= k < to ensures !At(s, pattern, k) {
      if At(s, pattern, k) { AtIndex(s, pattern, k, k); }
    }
  }

  /** So is a sequence that begins with a CSI and has no other ESC. */
  lemma ForeignWellFormed(foreign: seq<byte>)
    requires |foreign| >= 2 && foreign[..2] == FOREIGN && ESC !in foreign[2..]
    ensures WellFormed(foreign)
  {
    hide ScanFrom;
    assert foreign[0] == foreign[..2][0] && foreign[1] == foreign[..2][1];
    forall k | 2 <= k < |foreign| ensures foreign[k] != ESC {
      assert foreign[k] == foreign[2..][k - 2];
    }
    forall j ensures !At(foreign, START, j) {
      if At(foreign, START, j) {
        AtIndex(foreign, START, j, j);
        AtIndex(foreign, START, j, j + 1);
      }
    }
    assert NextCommand(foreign, 0) == Nothing;
    ScanNothing(foreign, 0);
  }

  /** The three ESC bytes of a spliced command: the opening's, the terminator's, the intruder's. */
  ghost predicate EscsAt(s: seq<byte>, b: nat, e: nat, p: nat) {
    p + 1 < |s| && s[p + 1] == FOREIGN[1] &&
    forall k :: 0 <= k < |s| ==> (s[k] == ESC <==> k == b || k == e || k == p)
  }

  lemma EscAt(s: seq<byte>, pattern: seq<byte>, b: nat, e: nat, p: nat, k: int)
    requires EscsAt(s, b, e, p) && At(s, pattern, k)
    requires pattern == START || pattern == END || pattern == FOREIGN
    ensures k == b || k == e || k == p
    ensures s[k + 1] == pattern[1]
  {
    AtIndex(s, pattern, k, k);
    AtIndex(s, pattern, k, k + 1);
  }

  /** The opening is whole and so is the terminator: a splice is seen where it lies between them. */
  lemma SpliceOfWholeCommand(s: seq<byte>, b: nat, e: nat, p: nat)
    requires EscsAt(s, b, e, p)
    requires At(s, START, b) && At(s, END, e) && b + |START| <= e && (p < b || b + |START| <= p)
    requires p != e
    ensures Torn(s) == if b + |START| <= p < e then 1 else 0
  {
    hide ScanFrom;
    forall j | j < b ensures !At(s, START, j) {
      if At(s, START, j) { EscAt(s, START, b, e, p, j); }
    }
    FindAt(s, START, 0, b);
    forall j | b + |START| <= j < e ensures !At(s, END, j) {
      if At(s, END, j) { EscAt(s, END, b, e, p, j); }
    }
    FindAt(s, END, b + |START|, e);
    forall j | e < j ensures !At(s, START, j) {
      if At(s, START, j) { EscAt(s, START, b, e, p, j); }
    }
    assert NextCommand(s, 0) == Whole(b, e);
    ScanLast(s, 0);
    if b + |START| <= p < e {
      assert s[p..p + 2] == FOREIGN;
      assert At(s, FOREIGN, p);
    } else {
      forall j | b + |START| <= j < e ensures !At(s, FOREIGN, j) {
        if At(s, FOREIGN, j) { EscAt(s, FOREIGN, b, e, p, j); }
      }
    }
  }

  /** A splice inside the terminator leaves a command that never ends, which is not counted. */
  lemma SpliceInTerminator(s: seq<byte>, e: nat)
    requires EscsAt(s, 0, e, e + 1) && At(s, START, 0) && |START| <= e
    ensures Torn(s) == 0
  {
    hide ScanFrom;
    FindAt(s, START, 0, 0);
    forall j | |START| <= j ensures !At(s, END, j) {
      if At(s, END, j) { EscAt(s, END, 0, e, e + 1, j); }
    }
    assert NextCommand(s, 0) == Unended(0);
    ScanOpen(s, 0);
  }

  /** A splice inside the opening leaves no command at all. */
  lemma SpliceInOpening(s: seq<byte>, e: nat, p: nat)
    requires EscsAt(s, 0, e, p) && 1 <= p <= 2 && 3 <= e && e + 1 < |s| && s[e + 1] == END[1]
    ensures Torn(s) == 0
  {
    hide ScanFrom;
    forall j ensures !At(s, START, j) {
      if At(s, START, j) {
        EscAt(s, START, 0, e, p, j);
        if j == 0 { AtIndex(s, START, 0, p); }
      }
    }
    assert NextCommand(s, 0) == Nothing;
    ScanNothing(s, 0);
  }

  /** How the detector answers a foreign sequence put at every position of one clean command: it
      sees the splice if and only if it lies strictly between the opening and the terminator. */
  lemma DetectorExact(body: seq<byte>, foreign: seq<byte>, p: nat)
    requires ESC !in body
    requires |foreign| >= 2 && foreign[..2] == FOREIGN && ESC !in foreign[2..]
    requires p <= |START + body + END|
    ensures var clean := START + body + END;
            Torn(clean[..p] + foreign + clean[p..]) ==
            if |START| <= p <= |START| + |body| then 1 else 0
  {
    var clean := START + body + END;
    var s := clean[..p] + foreign + clean[p..];
    var n, f := |body|, |foreign|;
    var b := if 0 < p then 0 else f;
    var e := if 3 + n < p then 3 + n else 3 + n + f;
    SplicedEscs(body, foreign, p, b, e);
    if 1 <= p <= 2 {
      assert s[e + 1] == clean[4 + n];
      SpliceInOpening(s, e, p);
    } else {
      assert s[b..b + 3] == clean[0..3] == START;
      if p == 4 + n {
        SpliceInTerminator(s, e);
      } else {
        assert s[e..e + 2] == clean[3 + n..5 + n] == END;
        SpliceOfWholeCommand(s, b, e, p);
      }
    }
  }

  lemma SplicedEscs(body: seq<byte>, foreign: seq<byte>, p: nat, b: nat, e: nat)
    requires ESC !in body
    requires |foreign| >= 2 && foreign[..2] == FOREIGN && ESC !in foreign[2..]
    requires p <= |body| + 5
    requires b == if 0 < p then 0 else |foreign|
    requires e == if 3 + |body| < p then 3 + |body| else 3 + |body| + |foreign|
    ensures var clean := START + body + END;
            EscsAt(clean[..p] + foreign + clean[p..], b, e, p)
  {
    var clean := START + body + END;
    var s := clean[..p] + foreign + clean[p..];
    var f := |foreign|;
    forall k | 0 <= k < |clean| ensures clean[k] == ESC <==> k == 0 || k == 3 + |body| {
      if 3 <= k < 3 + |body| { assert clean[k] == body[k - 3]; }
    }
    assert foreign[0] == foreign[..2][0] && foreign[1] == foreign[..2][1];
    forall k | 0 <= k < f ensures foreign[k] == ESC <==> k == 0 {
      if 2 <= k { assert foreign[k] == foreign[2..][k - 2]; }
    }
    forall k | 0 <= k < |s| ensures s[k] == ESC <==> k == b || k == e || k == p {
      if k < p {
        assert s[k] == clean[k];
      } else if k < p + f {
        assert s[k] == foreign[k - p];
      } else {
        assert s[k] == clean[k - f];
      }
    }
    assert s[p + 1] == foreign[1];
  }
}
