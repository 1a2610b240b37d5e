/**
 A pane whose page lives in the daemon: the loop that reads the daemon's lines and hands what they
 carry to the pane writer, until hosting is lost.
 */
module Hosted {

  import opened Octets
  import opened Wrappers
  import opened Sequences
  import opened TornScan
  import opened PaneWriter
  import Text

  datatype PaneEvent =
    | EngineLost(reason: string)
    | Closed(reason: string)
    | AgentSocket(path: string)
    | Audio(audible: bool)
    | KeyboardRestore

  /** The daemon's answers; those a running pane ignores alike are one. */
  datatype Response =
    | HostAccepted(generation: nat)
    | HostRefused(reason: string, detail: string)
    | Frame(generation: nat, payload: string)
    | Event(generation: nat, event: PaneEvent)
    | Done
    | Error(message: string)
    | Other(answer: string)

  /** Why a pane spawns an engine of its own. */
  datatype SpawnReason =
    | FlagOff
    | ConnectFailed(reason: string)
    | Refused(reason: string, detail: string)
    | UnexpectedAnswer(answer: string)
    | HostedSessionLost(reason: string)

  /** What reading the connection yields next. The end of the list is the daemon hanging up. */
  datatype Arrival = Line(text: string) | ReadError(message: string)

  /** How a line of JSON is read as an answer. */
  type Decode = string -> Option<Response>

  /** `ESC [ > 4 ; 2 m` */
  const TRACKED_KEYBOARD_MODE: seq<byte> := [0x1b, 0x5b, 0x3e, 0x34, 0x3b, 0x32, 0x6d]

  const CONNECTION_CLOSED := HostedSessionLost("twebd closed the connection")

  predicate MessageIsCurrent(ours: nat, incoming: nat) {
    ours == incoming
  }

  /** What one answer makes of the pane: bytes to write whole, nothing, or the end of hosting. */
  datatype Effect = Write(bytes: seq<byte>) | Ignore | Lose(reason: SpawnReason)

  function EffectOf(response: Response, ours: nat, tracked: bool): Effect {
    match response
    case Frame(generation, payload) =>
      if !MessageIsCurrent(ours, generation) then Ignore
      else (match DecodeHex(payload)
            case None => Ignore
            case Some(bytes) => Write(bytes))
    case Event(generation, event) =>
      if !MessageIsCurrent(ours, generation) then Ignore
      else (match event
            case EngineLost(reason) => Lose(HostedSessionLost(reason))
            case Closed(reason) => Lose(HostedSessionLost(reason))
            case KeyboardRestore => if tracked then Write(TRACKED_KEYBOARD_MODE) else Ignore
            case _ => Ignore)
    case _ => Ignore
  }

  /** A blank line and one that is not an answer are passed over. */
  function ArrivalEffect(a: Arrival, ours: nat, tracked: bool, decode: Decode): Effect {
    match a
    case ReadError(message) => Lose(HostedSessionLost(message))
    case Line(text) =>
      if Text.Trim(text) == "" then Ignore
      else (match decode(text)
            case None => Ignore
            case Some(response) => EffectOf(response, ours, tracked))
  }

  function EffectBytes(effect: Effect): seq<byte> {
    if effect.Write? then effect.bytes else []
  }

  /** One answer. A failed write to the tty is not a reason to stop. */
  method Apply(response: Response, ours: nat, tracked: bool, writer: Writer) returns (lost: Option<SpawnReason>)
    modifies writer.sink
    ensures var effect := EffectOf(response, ours, tracked);
            && lost == (if effect.Lose? then Some(effect.reason) else None)
            && old(writer.sink.written) <= writer.sink.written
            && writer.sink.written[|old(writer.sink.written)|..] <= EffectBytes(effect)
            && (writer.sink.sound ==> writer.sink.written == old(writer.sink.written) + EffectBytes(effect))
  {
    match response
    case Frame(generation, payload) =>
      if !MessageIsCurrent(ours, generation) {
        return None;
      }
      var bytes := DecodeHex(payload);
      if bytes.None? {
        return None;
      }
      var _ := writer.WriteSequence(bytes.value);
      return None;
    case Event(generation, event) =>
      if !MessageIsCurrent(ours, generation) {
        return None;
      }
      match event {
        case EngineLost(reason) => return Some(HostedSessionLost(reason));
        case Closed(reason) => return Some(HostedSessionLost(reason));
        case AgentSocket(_) => return None;
        case Audio(_) => return None;
        case KeyboardRestore =>
          if tracked {
            var _ := writer.WriteSequence(TRACKED_KEYBOARD_MODE);
          }
          return None;
      }
    case _ => return None;
  }

  /** What a pump writes and how it ends. */
  datatype Pumping = Pumping(sequences: seq<seq<byte>>, reason: SpawnReason)

  function Pumped(arrivals: seq<Arrival>, ours: nat, tracked: bool, decode: Decode): Pumping {
    if arrivals == [] then Pumping([], CONNECTION_CLOSED)
    else
      match ArrivalEffect(arrivals[0], ours, tracked, decode)
      case Lose(reason) => Pumping([], reason)
      case Ignore => Pumped(arrivals[1..], ours, tracked, decode)
      case Write(bytes) =>
        var rest := Pumped(arrivals[1..], ours, tracked, decode);
        rest.(sequences := [bytes] + rest.sequences)
  }

  /** Of each sequence the tty took a beginning, in order; `sent` is what it took. */
  ghost predicate Took(sent: seq<seq<byte>>, sequences: seq<seq<byte>>) {
    |sent| == |sequences| && forall i :: 0 <= i < |sent| ==> sent[i] <= sequences[i]
  }

  /** What a pump over the arrivals so far has written. */
  function Writes(arrivals: seq<Arrival>, ours: nat, tracked: bool, decode: Decode): seq<seq<byte>> {
    if arrivals == [] then []
    else
      var effect := ArrivalEffect(arrivals[|arrivals| - 1], ours, tracked, decode);
      Writes(arrivals[..|arrivals| - 1], ours, tracked, decode) + if effect.Write? then [effect.bytes] else []
  }

  ghost predicate NoneLost(arrivals: seq<Arrival>, ours: nat, tracked: bool, decode: Decode) {
    forall k :: 0 <= k < |arrivals| ==> !ArrivalEffect(arrivals[k], ours, tracked, decode).Lose?
  }

  /** The bytes of a pump are those of the arrivals before the first that ends it, and it ends for
      that arrival's reason, or because there is none. */
  lemma {:induction false} PumpedIs(arrivals: seq<Arrival>, stop: nat, ours: nat, tracked: bool, decode: Decode)
    requires stop <= |arrivals| && NoneLost(arrivals[..stop], ours, tracked, decode)
    requires stop < |arrivals| ==> ArrivalEffect(arrivals[stop], ours, tracked, decode).Lose?
    ensures Pumped(arrivals, ours, tracked, decode)
         == Pumping(Writes(arrivals[..stop], ours, tracked, decode),
                    if stop < |arrivals| then ArrivalEffect(arrivals[stop], ours, tracked, decode).reason
                    else CONNECTION_CLOSED)
  {
    hide ArrivalEffect;
    PumpedFrom(arrivals[..stop], arrivals[stop..], ours, tracked, decode);
    assert arrivals == arrivals[..stop] + arrivals[stop..];
    var rest := Pumped(arrivals[stop..], ours, tracked, decode);
    assert rest.sequences == [];
    assert Writes(arrivals[..stop], ours, tracked, decode) + [] == Writes(arrivals[..stop], ours, tracked, decode);
  }

  lemma {:induction false} PumpedFrom(a: seq<Arrival>, b: seq<Arrival>, ours: nat, tracked: bool, decode: Decode)
    requires NoneLost(a, ours, tracked, decode)
    ensures Pumped(a + b, ours, tracked, decode)
         == Pumping(Writes(a, ours, tracked, decode) + Pumped(b, ours, tracked, decode).sequences,
                    Pumped(b, ours, tracked, decode).reason)
    decreases |a|
  {
    hide ArrivalEffect;
    if a == [] {
      assert a + b == b;
      assert [] + Pumped(b, ours, tracked, decode).sequences == Pumped(b, ours, tracked, decode).sequences;
    } else {
      var init, last := a[..|a| - 1], a[|a| - 1];
      assert a + b == init + ([last] + b);
      assert ([last] + b)[1..] == b;
      PumpedFrom(init, [last] + b, ours, tracked, decode);
      var effect := ArrivalEffect(last, ours, tracked, decode);
      var w, r := Writes(init, ours, tracked, decode), Pumped(b, ours, tracked, decode).sequences;
      if effect.Write? {
        assert w + ([effect.bytes] + r) == w + [effect.bytes] + r;
      } else {
        assert w + [] + r == w + r;
      }
    }
  }

  lemma LineEffect(text: string, ours: nat, tracked: bool, decode: Decode)
    ensures ArrivalEffect(Line(text), ours, tracked, decode)
         == if Text.Trim(text) == "" || decode(text).None? then Ignore
            else EffectOf(decode(text).value, ours, tracked)
  {}

  /** What one more arrival, which does not end the pump, adds. */
  lemma WritesPush(arrivals: seq<Arrival>, i: nat, ours: nat, tracked: bool, decode: Decode,
                   sent: seq<seq<byte>>, took: seq<byte>)
    requires i < |arrivals| && NoneLost(arrivals[..i], ours, tracked, decode)
    requires Took(sent, Writes(arrivals[..i], ours, tracked, decode))
    requires var effect := ArrivalEffect(arrivals[i], ours, tracked, decode);
             !effect.Lose? && took <= EffectBytes(effect)
    ensures NoneLost(arrivals[..i + 1], ours, tracked, decode)
    ensures var effect := ArrivalEffect(arrivals[i], ours, tracked, decode);
            var sent' := if effect.Write? then sent + [took] else sent;
            && Took(sent', Writes(arrivals[..i + 1], ours, tracked, decode)) && Flatten(sent') == Flatten(sent) + took
            && (sent == Writes(arrivals[..i], ours, tracked, decode) && took == EffectBytes(effect)
                ==> sent' == Writes(arrivals[..i + 1], ours, tracked, decode))
  {
    hide ArrivalEffect;
    assert arrivals[..i + 1] == arrivals[..i] + [arrivals[i]];
    assert arrivals[..i + 1][..i] == arrivals[..i];
    FlattenAppend(sent, [took]);
    FlattenOne(took);
    var w := Writes(arrivals[..i], ours, tracked, decode);
    assert w + [] == w;
  }

  /** Reads until the pane ends or hosting is lost. The tty gets the sequences of the current
      generation's frames and keyboard restores before that, in order, each whole unless its write
      fails; nothing else is written. */
  method Pump(arrivals: seq<Arrival>, ours: nat, tracked: bool, decode: Decode, writer: Writer)
    returns (reason: SpawnReason, ghost sent: seq<seq<byte>>)
    modifies writer.sink
    ensures reason == Pumped(arrivals, ours, tracked, decode).reason
    ensures Took(sent, Pumped(arrivals, ours, tracked, decode).sequences)
    ensures writer.sink.written == old(writer.sink.written) + Flatten(sent)
    ensures writer.sink.sound ==> sent == Pumped(arrivals, ours, tracked, decode).sequences
  {
    hide ArrivalEffect, EffectOf, Pumped, Writes, NoneLost, Took, Flatten, Text.Trim;
    sent := [];
    ghost var before := writer.sink.written;
    NothingYet(arrivals, ours, tracked, decode);
    for i := 0 to |arrivals|
      invariant NoneLost(arrivals[..i], ours, tracked, decode)
      invariant Took(sent, Writes(arrivals[..i], ours, tracked, decode))
      invariant writer.sink.written == before + Flatten(sent)
      invariant writer.sink.sound ==> sent == Writes(arrivals[..i], ours, tracked, decode)
    {
      ghost var effect := ArrivalEffect(arrivals[i], ours, tracked, decode);
      if arrivals[i].ReadError? {
        ReadErrorLoses(arrivals[i].message, ours, tracked, decode);
        PumpedIs(arrivals, i, ours, tracked, decode);
        reason := HostedSessionLost(arrivals[i].message);
        return;
      }
      LineEffect(arrivals[i].text, ours, tracked, decode);
      if Text.Trim(arrivals[i].text) == "" {
        WritesPush(arrivals, i, ours, tracked, decode, sent, []);
        continue;
      }
      var response := decode(arrivals[i].text);
      if response.None? {
        WritesPush(arrivals, i, ours, tracked, decode, sent, []);
        continue;
      }
      ghost var written := writer.sink.written;
      var lost := Apply(response.value, ours, tracked, writer);
      ghost var took := writer.sink.written[|written|..];
      assert writer.sink.written == written + took;
      if lost.Some? {
        assert took == [];
        PumpedIs(arrivals, i, ours, tracked, decode);
        reason := lost.value;
        return;
      }
      WritesPush(arrivals, i, ours, tracked, decode, sent, took);
      if effect.Write? {
        sent := sent + [took];
      }
    }
    PumpedIs(arrivals, |arrivals|, ours, tracked, decode);
    assert arrivals[..|arrivals|] == arrivals;
    reason := CONNECTION_CLOSED;
  }

  lemma NothingYet(arrivals: seq<Arrival>, ours: nat, tracked: bool, decode: Decode)
    ensures NoneLost(arrivals[..0], ours, tracked, decode)
    ensures Writes(arrivals[..0], ours, tracked, decode) == []
    ensures Took([], Writes(arrivals[..0], ours, tracked, decode)) && Flatten<byte>([]) == []
  {}

  lemma ReadErrorLoses(message: string, ours: nat, tracked: bool, decode: Decode)
    ensures ArrivalEffect(ReadError(message), ours, tracked, decode) == Lose(HostedSessionLost(message))
  {}

  // What a pump writes, told from the answers.

  /** The answer on a line; a blank line has none. */
  function AnswerOf(a: Arrival, decode: Decode): Option<Response> {
    if a.Line? && !Text.AllSpace(a.text) then decode(a.text) else None
  }

  /** The answer is a frame of this generation with these bytes, or a keyboard restore while the mode is
      tracked. */
  ghost predicate Shows(a: Arrival, ours: nat, tracked: bool, decode: Decode, bytes: seq<byte>) {
    || (exists payload :: AnswerOf(a, decode) == Some(Frame(ours, payload)) && Text.Lower(payload) == EncodeHex(bytes))
    || (tracked && AnswerOf(a, decode) == Some(Event(ours, KeyboardRestore)) && bytes == [0x1b, 0x5b, 0x3e, 0x34, 0x3b, 0x32, 0x6d])
  }

  /** The connection broke, or this generation lost its engine or was closed. */
  ghost predicate Ends(a: Arrival, ours: nat, decode: Decode, reason: string) {
    || a == ReadError(reason)
    || AnswerOf(a, decode) == Some(Event(ours, EngineLost(reason)))
    || AnswerOf(a, decode) == Some(Event(ours, Closed(reason)))
  }

  /** At these places, and no others, something is shown: these sequences, in order. */
  ghost predicate ShownAt(arrivals: seq<Arrival>, ours: nat, tracked: bool, decode: Decode, sequences: seq<seq<byte>>,
                          places: seq<nat>) {
    && |places| == |sequences|
    && (forall i, j :: 0 <= i < j < |places| ==> places[i] < places[j])
    && (forall i :: 0 <= i < |places| ==>
          places[i] < |arrivals| && Shows(arrivals[places[i]], ours, tracked, decode, sequences[i]))
    && (forall k, bytes :: 0 <= k < |arrivals| && Shows(arrivals[k], ours, tracked, decode, bytes) ==> k in places)
  }

  lemma EffectMeans(a: Arrival, ours: nat, tracked: bool, decode: Decode)
    ensures forall bytes :: ArrivalEffect(a, ours, tracked, decode) == Write(bytes) <==> Shows(a, ours, tracked, decode, bytes)
    ensures forall reason :: ArrivalEffect(a, ours, tracked, decode) == Lose(HostedSessionLost(reason)) <==>
                             Ends(a, ours, decode, reason)
    ensures ArrivalEffect(a, ours, tracked, decode).Lose? ==> exists reason :: Ends(a, ours, decode, reason)
  {
    hide DecodeHex, EncodeHex, Text.Lower, Text.AllSpace, Text.Trim;
    if a.Line? {
      Text.TrimFacts(a.text);
      LineEffect(a.text, ours, tracked, decode);
      var answer := AnswerOf(a, decode);
      forall bytes
        ensures ArrivalEffect(a, ours, tracked, decode) == Write(bytes) <==> Shows(a, ours, tracked, decode, bytes)
      {
        if answer.Some? && answer.value.Frame? {
          DecodesIff(answer.value.payload, bytes);
          assert answer == Some(Frame(ours, answer.value.payload)) <==> answer.value.generation == ours;
        }
      }
    }
  }

  lemma {:induction false} WritesShown(arrivals: seq<Arrival>, ours: nat, tracked: bool, decode: Decode)
    returns (places: seq<nat>)
    requires NoneLost(arrivals, ours, tracked, decode)
    ensures ShownAt(arrivals, ours, tracked, decode, Writes(arrivals, ours, tracked, decode), places)
  {
    hide ArrivalEffect, Shows;
    places := [];
    if arrivals != [] {
      var n := |arrivals| - 1;
      places := WritesShown(arrivals[..n], ours, tracked, decode);
      EffectMeans(arrivals[n], ours, tracked, decode);
      var effect := ArrivalEffect(arrivals[n], ours, tracked, decode);
      var before := places;
      if effect.Write? {
        places := places + [n];
        assert places[|before|] == n;
      } else {
        assert Writes(arrivals, ours, tracked, decode) == Writes(arrivals[..n], ours, tracked, decode) + [];
      }
      forall k: nat, bytes | k < |arrivals| && Shows(arrivals[k], ours, tracked, decode, bytes) ensures k in places {
        if k < n {
          assert arrivals[..n][k] == arrivals[k] && k in before;
        }
      }
    }
  }

  /** Every pump, from the answers it got: it writes exactly the bytes of the current frames and the
      tracked keyboard restores, in order, up to the first arrival that ends it, and its reason is that
      arrival's, or that the daemon hung up. */
  lemma PumpShows(arrivals: seq<Arrival>, ours: nat, tracked: bool, decode: Decode) returns (stop: nat, places: seq<nat>)
    ensures stop <= |arrivals|
    ensures forall k, reason :: 0 <= k < stop ==> !Ends(arrivals[k], ours, decode, reason)
    ensures ShownAt(arrivals[..stop], ours, tracked, decode, Pumped(arrivals, ours, tracked, decode).sequences, places)
    ensures stop == |arrivals| ==>
              Pumped(arrivals, ours, tracked, decode).reason == HostedSessionLost("twebd closed the connection")
    ensures stop < |arrivals| ==>
              exists reason :: Ends(arrivals[stop], ours, decode, reason) &&
                               Pumped(arrivals, ours, tracked, decode).reason == HostedSessionLost(reason)
  {
    hide ArrivalEffect, Ends, ShownAt, Pumped, Writes;
    stop := 0;
    while stop < |arrivals| && !ArrivalEffect(arrivals[stop], ours, tracked, decode).Lose?
      invariant stop <= |arrivals| && NoneLost(arrivals[..stop], ours, tracked, decode)
    {
      stop := stop + 1;
    }
    forall k, reason | 0 <= k < stop ensures !Ends(arrivals[k], ours, decode, reason) {
      EffectMeans(arrivals[k], ours, tracked, decode);
      assert arrivals[..stop][k] == arrivals[k];
    }
    PumpedIs(arrivals, stop, ours, tracked, decode);
    places := WritesShown(arrivals[..stop], ours, tracked, decode);
    if stop < |arrivals| {
      EffectMeans(arrivals[stop], ours, tracked, decode);
    }
  }

  /** A message of another generation, or a line that is no answer: none of the pane's business. */
  predicate Foreign(a: Arrival, ours: nat, decode: Decode) {
    match a
    case ReadError(_) => false
    case Line(text) =>
      match decode(text)
      case None => true
      case Some(Frame(generation, _)) => generation != ours
      case Some(Event(generation, _)) => generation != ours
      case _ => false
  }

  function WithoutForeign(arrivals: seq<Arrival>, ours: nat, decode: Decode): seq<Arrival> {
    if arrivals == [] then []
    else (if Foreign(arrivals[0], ours, decode) then [] else [arrivals[0]])
         + WithoutForeign(arrivals[1..], ours, decode)
  }

  /** A superseded frontend cannot be told apart from silence: without every message of another
      generation and every undecodable line the bytes and the outcome are the same. */
  lemma {:induction false} ForeignMessagesDoNotMatter(arrivals: seq<Arrival>, ours: nat, tracked: bool, decode: Decode)
    ensures Pumped(WithoutForeign(arrivals, ours, decode), ours, tracked, decode)
         == Pumped(arrivals, ours, tracked, decode)
  {
    if arrivals != [] {
      ForeignMessagesDoNotMatter(arrivals[1..], ours, tracked, decode);
      var rest := WithoutForeign(arrivals[1..], ours, decode);
      if Foreign(arrivals[0], ours, decode) {
        ForeignDoesNothing(arrivals[0], ours, tracked, decode);
        assert [] + rest == rest;
      } else {
        assert ([arrivals[0]] + rest)[1..] == rest;
      }
    }
  }

  lemma ForeignDoesNothing(a: Arrival, ours: nat, tracked: bool, decode: Decode)
    requires Foreign(a, ours, decode)
    ensures ArrivalEffect(a, ours, tracked, decode) == Ignore
  {}

  /** The frames of this generation are units the tear counter can count one by one. */
  ghost predicate FramesWellFormed(arrivals: seq<Arrival>, ours: nat, decode: Decode) {
    forall k, payload :: 0 <= k < |arrivals| && arrivals[k].Line? &&
                         decode(arrivals[k].text) == Some(Frame(ours, payload)) && DecodeHex(payload).Some? ==>
                           WellFormed(DecodeHex(payload).value)
  }

  lemma KeyboardModeWellFormed()
    ensures WellFormed(TRACKED_KEYBOARD_MODE)
  {
    var s := TRACKED_KEYBOARD_MODE;
    forall j ensures !At(s, START, j) {
      if At(s, START, j) {
        AtIndex(s, START, j, j + 1);
        AtIndex(s, START, j, j);
      }
    }
    NextIs(s, 0);
    ScanNothing(s, 0);
    assert s[6..][0] == 0x6d && s[5..][0] == 0x32;
    assert START[..1][0] == 0x1b && START[..2][0] == 0x1b;
  }

  ghost predicate AllWellFormed(sequences: seq<seq<byte>>) {
    forall i :: 0 <= i < |sequences| ==> WellFormed(sequences[i])
  }

  lemma EffectWellFormed(arrivals: seq<Arrival>, k: nat, ours: nat, tracked: bool, decode: Decode)
    requires FramesWellFormed(arrivals, ours, decode) && k < |arrivals|
    ensures var effect := ArrivalEffect(arrivals[k], ours, tracked, decode);
            effect.Write? ==> WellFormed(effect.bytes)
  {
    hide WellFormed, DecodeHex, Text.Trim;
    KeyboardModeWellFormed();
    if arrivals[k].Line? {
      var response := decode(arrivals[k].text);
      if response.Some? && response.value.Frame? && response.value.generation == ours
         && DecodeHex(response.value.payload).Some? {
        assert response == Some(Frame(ours, response.value.payload));
      }
    }
  }

  lemma {:induction false} PumpedUnits(arrivals: seq<Arrival>, ours: nat, tracked: bool, decode: Decode)
    requires FramesWellFormed(arrivals, ours, decode)
    ensures AllWellFormed(Pumped(arrivals, ours, tracked, decode).sequences)
  {
    hide WellFormed, DecodeHex, ArrivalEffect;
    if arrivals != [] {
      EffectWellFormed(arrivals, 0, ours, tracked, decode);
      forall k, payload | 0 <= k < |arrivals| - 1 && arrivals[1..][k].Line? &&
                          decode(arrivals[1..][k].text) == Some(Frame(ours, payload)) && DecodeHex(payload).Some?
        ensures WellFormed(DecodeHex(payload).value)
      {
        assert arrivals[1..][k] == arrivals[k + 1];
      }
      PumpedUnits(arrivals[1..], ours, tracked, decode);
    }
  }

  /** If the frames are whole commands, what the pump leaves on the tty is never torn, keyboard
      restores between them included, and writes that failed too as long as each left a closed
      prefix. `sent` is what the tty took of each sequence. */
  lemma PumpNeverTears(arrivals: seq<Arrival>, ours: nat, tracked: bool, decode: Decode, sent: seq<seq<byte>>)
    requires FramesWellFormed(arrivals, ours, decode)
    requires var sequences := Pumped(arrivals, ours, tracked, decode).sequences;
             Took(sent, sequences) && forall i :: 0 <= i < |sent| ==> sent[i] == sequences[i] || TornScan.Closed(sent[i])
    ensures WellFormed(Flatten(sent))
  {
    hide WellFormed, DecodeHex, Pumped, TornScan.Closed, Torn, ScanFrom;
    var sequences := Pumped(arrivals, ours, tracked, decode).sequences;
    PumpedUnits(arrivals, ours, tracked, decode);
    forall i | 0 <= i < |sent| ensures WellFormed(sent[i]) {
      ClosedPrefix(sent[i], sequences[i]);
    }
    UnitsWellFormed(sent);
  }

  lemma ClosedPrefix(prefix: seq<byte>, unit: seq<byte>)
    requires WellFormed(unit) && prefix <= unit && (prefix == unit || TornScan.Closed(prefix))
    ensures WellFormed(prefix)
  {
    hide ScanFrom, Torn, EndsInsideStart;
    TornMonotone(prefix, unit[|prefix|..]);
    assert prefix + unit[|prefix|..] == unit;
  }

  // Control lines.

  function ControlBody(body: string): string {
    if body != "" && body[|body| - 1] == '\n' then ControlBody(body[..|body| - 1]) else body
  }

  /** The line for the daemon has no newline in it exactly if the body had none but at its end: then
      it is what stood before them. */
  lemma {:induction false} ControlIsOneLineIff(body: string)
    ensures ControlBody(body) <= body
    ensures forall k :: |ControlBody(body)| <= k < |body| ==> body[k] == '\n'
    ensures '\n' !in ControlBody(body) <==>
            forall k :: 0 <= k < |body| && body[k] == '\n' ==> (forall j :: k <= j < |body| ==> body[j] == '\n')
  {
    if body != "" && body[|body| - 1] == '\n' {
      var init := body[..|body| - 1];
      ControlIsOneLineIff(init);
    } else if body != "" && '\n' in body {
      var k :| 0 <= k < |body| && body[k] == '\n';
      assert body[|body| - 1] != '\n';
    }
  }

  // From the flag to the last byte.

  predicate FlagEnabled(value: Option<string>) {
    value.None? || (value.value != "" && value.value != "0" && value.value != "false")
  }

  /** The generation the daemon's answer hosts the pane under, or why it does not. */
  function RouteFromAnswer(response: Response): Result<nat, SpawnReason> {
    match response
    case HostAccepted(generation) => Success(generation)
    case HostRefused(reason, detail) => Failure(Refused(reason, detail))
    case Error(message) => Failure(UnexpectedAnswer("an error: " + message))
    case Other(answer) => Failure(UnexpectedAnswer(answer))
    case _ => Failure(UnexpectedAnswer(""))
  }

  function Route(flag: Option<string>, connected: bool, answer: Option<Arrival>, decode: Decode)
    : Result<nat, SpawnReason>
  {
    if !FlagEnabled(flag) then Failure(FlagOff)
    else if !connected then Failure(ConnectFailed("cannot connect"))
    else
      match answer
      case None => Failure(ConnectFailed("twebd closed the connection"))
      case Some(ReadError(message)) => Failure(ConnectFailed(message))
      case Some(Line(text)) =>
        match decode(text)
        case None => Failure(UnexpectedAnswer(text))
        case Some(response) => RouteFromAnswer(response)
  }

  /** A pane's whole time with the daemon: the route, and then what the pump makes of the lines that
      follow. Whatever happens, it ends with a reason to spawn. */
  function Session(flag: Option<string>, connected: bool, answer: Option<Arrival>, rest: seq<Arrival>, tracked: bool,
                   decode: Decode): Pumping
  {
    match Route(flag, connected, answer, decode)
    case Failure(reason) => Pumping([], reason)
    case Success(ours) => Pumped(rest, ours, tracked, decode)
  }

  /** Not a byte is written unless the flag leaves the pane to the daemon and the daemon accepts it;
      then every sequence written comes from a line of the very generation it accepted, or restores
      the keyboard. Nothing is guessed from any other answer. */
  lemma {:induction false} SessionWritesOnlyItsOwn(flag: Option<string>, connected: bool, answer: Option<Arrival>,
                                                   rest: seq<Arrival>, tracked: bool, decode: Decode, i: nat)
    requires i < |Session(flag, connected, answer, rest, tracked, decode).sequences|
    ensures flag !in {Some(""), Some("0"), Some("false")} && connected
    ensures exists text, ours, k :: answer == Some(Line(text)) && decode(text) == Some(HostAccepted(ours)) &&
              0 <= k < |rest| &&
              ArrivalEffect(rest[k], ours, tracked, decode)
                == Write(Session(flag, connected, answer, rest, tracked, decode).sequences[i])
  {
    hide Pumped, ArrivalEffect;
    var ours := Route(flag, connected, answer, decode).value;
    var text := answer.value.text;
    assert answer == Some(Line(text)) && decode(text) == Some(HostAccepted(ours));
    var k := WrittenFrom(rest, ours, tracked, decode, i);
  }

  lemma {:induction false} WrittenFrom(arrivals: seq<Arrival>, ours: nat, tracked: bool, decode: Decode, i: nat)
    returns (k: nat)
    requires i < |Pumped(arrivals, ours, tracked, decode).sequences|
    ensures k < |arrivals| && ArrivalEffect(arrivals[k], ours, tracked, decode)
                              == Write(Pumped(arrivals, ours, tracked, decode).sequences[i])
  {
    hide ArrivalEffect;
    var effect := ArrivalEffect(arrivals[0], ours, tracked, decode);
    if effect.Write? && i == 0 {
      k := 0;
    } else {
      var later := WrittenFrom(arrivals[1..], ours, tracked, decode, if effect.Write? then i - 1 else i);
      k := later + 1;
    }
  }

  /** A pane that opted out, or that finds no daemon, writes nothing and says so. */
  lemma SessionWithoutDaemon(flag: Option<string>, answer: Option<Arrival>, rest: seq<Arrival>, tracked: bool, decode: Decode)
    ensures flag in {Some(""), Some("0"), Some("false")} ==>
              forall connected :: Session(flag, connected, answer, rest, tracked, decode) == Pumping([], FlagOff)
    ensures flag !in {Some(""), Some("0"), Some("false")} ==>
              var session := Session(flag, false, answer, rest, tracked, decode);
              session.sequences == [] && session.reason.ConnectFailed?
  {}

  /** And conversely: a pane that may be hosted, and that the daemon accepts, is pumped under exactly the
      generation the daemon gave it. Any other answer is the reason for an engine of its own. */
  lemma SessionFollowsAnswer(flag: Option<string>, connected: bool, text: string, rest: seq<Arrival>, tracked: bool,
                             decode: Decode)
    requires flag !in {Some(""), Some("0"), Some("false")} && connected && decode(text).Some?
    ensures var session := Session(flag, connected, Some(Line(text)), rest, tracked, decode);
            var answer := decode(text).value;
            && (answer.HostAccepted? ==> session == Pumped(rest, answer.generation, tracked, decode))
            && (answer.HostRefused? ==> session == Pumping([], Refused(answer.reason, answer.detail)))
            && (!answer.HostAccepted? && !answer.HostRefused? ==>
                  session.sequences == [] && session.reason.UnexpectedAnswer?)
  {}
}
