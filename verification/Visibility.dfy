/**
 Where a pane is and who is looking: one probe of tmux is read, and what it says is pushed to the
 engine when it differs from what was pushed last.
 */
module Visibility {

  import opened Octets
  import opened Wrappers
  import Text
  import Utf8

  /** `str::lines`: a carriage return before a line feed belongs to the line's end. */
  function Lines(s: string): seq<string> {
    var parts := Text.Split(s, '\n');
    var ended := EndedLines(parts[..|parts| - 1]);
    if parts[|parts| - 1] == "" then ended else ended + [parts[|parts| - 1]]
  }

  function EndedLines(parts: seq<string>): (r: seq<string>)
    ensures |r| == |parts|
  {
    seq(|parts|, i requires 0 <= i < |parts| =>
      if parts[i] != "" && parts[i][|parts[i]| - 1] == '\r' then parts[i][..|parts[i]| - 1] else parts[i])
  }

  predicate IsDigit(c: char) {
    '0' <= c <= '9'
  }

  function Digits(s: string): nat
    requires forall k :: 0 <= k < |s| ==> IsDigit(s[k])
  {
    if s == "" then 0
    else
      var last := s[|s| - 1];
      assert IsDigit(last);
      10 * Digits(s[..|s| - 1]) + (last as int - '0' as int)
  }

  /** `str::parse` of an unsigned number: an optional plus sign and digits, within the type. */
  function ParseUnsigned(s: string, limit: nat): Option<nat> {
    var digits := if s != "" && s[0] == '+' then s[1..] else s;
    if digits != "" && (forall k :: 0 <= k < |digits| ==> IsDigit(digits[k])) && Digits(digits) < limit
    then Some(Digits(digits)) else None
  }

  const U16 := 0x1_0000
  const U32 := 0x1_0000_0000

  /** How a decimal number is read; a number that is not finite is none. */
  type ParseReal = string -> Option<real>

  /** The pixel size learned for a grid, where tmux does not tell. */
  type Learned = (nat, nat) -> (nat, nat)

  datatype Geometry = Geometry(cols: nat, rows: nat, width: nat, height: nat, left: nat, top: nat)

  datatype Placement = Placement(session: string, window: string, pane: string)

  datatype Probe = Probe(geometry: Option<Geometry>, placement: Option<Placement>, clients: seq<string>)

  /** `f64::round` of a number that is not negative. */
  function Round(x: real): int {
    (x + 0.5).Floor
  }

  function ParsePixelSize(cols: nat, rows: nat, cellWidth: string, cellHeight: string, parse: ParseReal)
    : Option<(nat, nat)>
  {
    var w, h := parse(cellWidth), parse(cellHeight);
    if w.None? || h.None? || w.value <= 0.0 || h.value <= 0.0 then None
    else
      var width, height := Round(cols as real * w.value), Round(rows as real * h.value);
      if width < 1 || height < 1 || width >= U16 || height >= U16 then None else Some((width, height))
  }

  /** The text before and behind the first tab. */
  function SplitTab(line: string): Option<(string, string)> {
    var fields := Text.Split(line, '\t');
    if |fields| == 1 then None else Some((fields[0], Text.Join(fields[1..], '\t')))
  }

  /** What a placement line says, if it can be used. */
  function ReadPlacement(rest: string, pane: string, parse: ParseReal, learned: Learned)
    : Option<(Geometry, Option<Placement>)>
  {
    var f := Text.Split(rest, '\t');
    if |f| < 8 then None
    else
      var cols, rows := ParseUnsigned(f[0], U16), ParseUnsigned(f[1], U16);
      var left, top := ParseUnsigned(f[2], U32), ParseUnsigned(f[3], U32);
      if cols.None? || rows.None? || left.None? || top.None? || cols.value == 0 || rows.value == 0 then None
      else
        var told := ParsePixelSize(cols.value, rows.value, f[4], f[5], parse);
        var size := if told.Some? then told.value else learned(cols.value, rows.value);
        Some((Geometry(cols.value, rows.value, size.0, size.1, left.value, top.value),
              if f[6] != "" && f[7] != "" then Some(Placement(f[6], f[7], pane)) else None))
  }

  predicate IsPlacementLine(line: string) {
    var split := SplitTab(line);
    split.Some? && split.value.0 == "P"
  }

  /** A client, if the line is a client line with a tty. */
  function ClientOf(line: string): Option<string> {
    var split := SplitTab(line);
    if split.Some? && split.value.0 == "C" && Text.Split(split.value.1, '\t')[0] != "" then Some(split.value.1)
    else None
  }

  /** The clients among the lines, in order. */
  function Clients(lines: seq<string>): seq<string> {
    if lines == [] then []
    else
      var last := ClientOf(lines[|lines| - 1]);
      Clients(lines[..|lines| - 1]) + if last.Some? then [last.value] else []
  }

  /** The last usable geometry, and the last usable placement. */
  function LastGeometry(lines: seq<string>, pane: string, parse: ParseReal, learned: Learned): Option<Geometry> {
    if lines == [] then None
    else
      var line := lines[|lines| - 1];
      var read := if IsPlacementLine(line) then ReadPlacement(SplitTab(line).value.1, pane, parse, learned) else None;
      if read.Some? then Some(read.value.0) else LastGeometry(lines[..|lines| - 1], pane, parse, learned)
  }

  function LastPlacement(lines: seq<string>, pane: string, parse: ParseReal, learned: Learned): Option<Placement> {
    if lines == [] then None
    else
      var line := lines[|lines| - 1];
      var read := if IsPlacementLine(line) then ReadPlacement(SplitTab(line).value.1, pane, parse, learned) else None;
      if read.Some? && read.value.1.Some? then read.value.1
      else LastPlacement(lines[..|lines| - 1], pane, parse, learned)
  }

  method ParseProbe(stdout: string, pane: string, parse: ParseReal, learned: Learned) returns (probe: Probe)
    ensures probe.geometry == LastGeometry(Lines(stdout), pane, parse, learned)
    ensures probe.placement == LastPlacement(Lines(stdout), pane, parse, learned)
    ensures probe.clients == Clients(Lines(stdout))
  {
    hide ReadPlacement, Lines, Text.Split, Text.Join;
    var geometry: Option<Geometry> := None;
    var placement: Option<Placement> := None;
    var clients: seq<string> := [];
    var lines := Lines(stdout);
    for i := 0 to |lines|
      invariant geometry == LastGeometry(lines[..i], pane, parse, learned)
      invariant placement == LastPlacement(lines[..i], pane, parse, learned)
      invariant clients == Clients(lines[..i])
    {
      assert lines[..i + 1][..i] == lines[..i];
      assert Clients(lines[..i]) + [] == Clients(lines[..i]);
      var split := SplitTab(lines[i]);
      if split.None? {
        continue;
      }
      var rest := split.value.1;
      if split.value.0 == "P" {
        var read := ReadPlacement(rest, pane, parse, learned);
        if read.None? {
          continue;
        }
        geometry := Some(read.value.0);
        if read.value.1.Some? {
          placement := read.value.1;
        }
      } else if split.value.0 == "C" && Text.Split(rest, '\t')[0] != "" {
        clients := clients + [rest];
      }
    }
    assert lines[..|lines|] == lines;
    probe := Probe(geometry, placement, clients);
  }

  // Reading back what tmux printed.

  /** Lines as a program prints them. */
  function Printed(lines: seq<string>): string {
    Text.Join(lines + [""], '\n')
  }

  lemma PrintedReadsBack(lines: seq<string>)
    requires forall k :: 0 <= k < |lines| ==> '\n' !in lines[k]
    requires forall k :: 0 <= k < |lines| && lines[k] != "" ==> lines[k][|lines[k]| - 1] != '\r'
    ensures Lines(Printed(lines)) == lines
  {
    hide Text.Split, Text.Join;
    Text.SplitJoin(lines + [""], '\n');
    assert (lines + [""])[..|lines|] == lines;
    assert EndedLines(lines) == lines;
  }

  /** And so do lines that end as on other systems, and a last line that is not ended. */
  lemma OtherEndsReadBack(lines: seq<string>, last: string)
    requires forall k :: 0 <= k < |lines| ==> '\n' !in lines[k]
    requires last != "" && '\n' !in last
    ensures Lines(Text.Join(Returned(lines) + [last], '\n')) == lines + [last]
  {
    hide Text.Split, Text.Join;
    Text.SplitJoin(Returned(lines) + [last], '\n');
    assert (Returned(lines) + [last])[..|lines|] == Returned(lines);
    var ended := EndedLines(Returned(lines));
    forall k | 0 <= k < |lines| ensures ended[k] == lines[k] {
      assert Returned(lines)[k] == lines[k] + "\r";
    }
    assert ended == lines;
  }

  function Returned(lines: seq<string>): (r: seq<string>)
    ensures |r| == |lines| && forall k :: 0 <= k < |lines| ==> r[k] == lines[k] + "\r"
  {
    seq(|lines|, i requires 0 <= i < |lines| => lines[i] + "\r")
  }

  /** What lines are read at all: those that begin with a tag and a tab, and of the clients those whose tty is
      not empty. */
  lemma LineIs(line: string, client: string)
    ensures IsPlacementLine(line) <==> "P\t" <= line
    ensures ClientOf(line) == Some(client) <==> line == "C\t" + client && client != "" && client[0] != '\t'
  {
    hide Text.Split, Text.Join;
    if '\t' in line {
      TagOf(line);
    } else {
      Text.SplitNone(line, '\t');
      Tabbed(line, "P");
      Tabbed(line, "C");
      assert line == "C\t" + client ==> "C\t" <= line;
    }
    FirstField(client);
    assert "C\t" + client == ['C', '\t'] + client && ['C'] == "C" && ['P'] == "P";
    TaggedLine('C', client);
  }

  lemma Tabbed(line: string, tag: string)
    requires '\t' !in line
    ensures !(tag + "\t" <= line)
  {
    assert (tag + "\t")[|tag|] == '\t';
  }

  lemma FirstField(s: string)
    ensures Text.Split(s, '\t')[0] != "" <==> s != "" && s[0] != '\t'
  {}

  lemma TagOf(line: string)
    requires '\t' in line
    ensures var split := SplitTab(line);
            split.Some? && line == split.value.0 + "\t" + split.value.1 && '\t' !in split.value.0
    ensures "P\t" <= line <==> SplitTab(line).value.0 == "P"
  {
    hide Text.Split, Text.Join;
    var fields := Text.Split(line, '\t');
    Text.JoinSplit(line, '\t');
    TwoFields(fields, line);
    var tag, rest := fields[0], Text.Join(fields[1..], '\t');
    assert line == tag + "\t" + rest && line[|tag|] == '\t';
    assert forall k :: 0 <= k < |tag| ==> line[k] == tag[k];
    BeginsWith(line, 'P');
    assert "P\t" == ['P', '\t'] && "P" == ['P'];
    assert tag == "P" <==> |tag| == 1 && tag[0] == 'P';
  }

  lemma BeginsWith(line: string, tag: char)
    ensures [tag, '\t'] <= line <==> |line| >= 2 && line[0] == tag && line[1] == '\t'
  {
    if |line| >= 2 {
      assert line[..2] == [line[0], line[1]];
    }
  }

  lemma TwoFields(fields: seq<string>, line: string)
    requires fields != [] && Text.Join(fields, '\t') == line && '\t' in line && '\t' !in fields[0]
    ensures |fields| > 1 && line == fields[0] + "\t" + Text.Join(fields[1..], '\t')
  {}

  lemma {:induction false} ClientsAppend(a: seq<string>, b: seq<string>)
    ensures Clients(a + b) == Clients(a) + Clients(b)
    decreases |b|
  {
    hide ClientOf;
    if b == [] {
      assert a + b == a;
    } else {
      assert (a + b)[..|a + b| - 1] == a + b[..|b| - 1];
      ClientsAppend(a, b[..|b| - 1]);
    }
  }

  ghost predicate NoPlacementLine(lines: seq<string>) {
    forall k :: 0 <= k < |lines| ==> !IsPlacementLine(lines[k])
  }

  /** Lines behind a placement line that are not one change nothing of it. */
  lemma {:induction false} LastUnchanged(a: seq<string>, b: seq<string>, pane: string, parse: ParseReal, learned: Learned)
    requires NoPlacementLine(b)
    ensures LastGeometry(a + b, pane, parse, learned) == LastGeometry(a, pane, parse, learned)
    ensures LastPlacement(a + b, pane, parse, learned) == LastPlacement(a, pane, parse, learned)
    decreases |b|
  {
    hide ReadPlacement, SplitTab;
    if b == [] {
      assert a + b == a;
    } else {
      assert (a + b)[..|a + b| - 1] == a + b[..|b| - 1];
      assert (a + b)[|a + b| - 1] == b[|b| - 1];
      LastUnchanged(a, b[..|b| - 1], pane, parse, learned);
    }
  }

  lemma NoneWithoutPlacementLine(a: seq<string>, pane: string, parse: ParseReal, learned: Learned)
    requires NoPlacementLine(a)
    ensures LastGeometry(a, pane, parse, learned) == None
    ensures LastPlacement(a, pane, parse, learned) == None
  {
    LastUnchanged([], a, pane, parse, learned);
    assert [] + a == a;
  }

  /** The placement line may stand anywhere among the client lines: geometry and placement are what
      it says, and the clients are all of them in order. */
  lemma PlacementAnywhere(a: seq<string>, p: string, b: seq<string>, pane: string, parse: ParseReal, learned: Learned)
    requires IsPlacementLine(p) && NoPlacementLine(a) && NoPlacementLine(b)
    ensures var lines := a + [p] + b;
            var read := ReadPlacement(SplitTab(p).value.1, pane, parse, learned);
            && Clients(lines) == Clients(a + b)
            && LastGeometry(lines, pane, parse, learned) == (if read.Some? then Some(read.value.0) else None)
            && LastPlacement(lines, pane, parse, learned) == (if read.Some? then read.value.1 else None)
  {
    hide ReadPlacement, SplitTab, Text.Split;
    ClientsAppend(a + [p], b);
    ClientsAppend(a, [p]);
    ClientsAppend(a, b);
    PlacementIsNoClient(p);
    LastUnchanged(a + [p], b, pane, parse, learned);
    NoneWithoutPlacementLine(a, pane, parse, learned);
    assert (a + [p])[..|a|] == a && (a + [p])[|a|] == p;
  }

  lemma PlacementIsNoClient(p: string)
    requires IsPlacementLine(p)
    ensures Clients([p]) == []
  {
    assert [p][..0] == [];
    assert "P" != "C" by {
      assert "P"[0] != "C"[0];
    }
  }

  /** A printed client line reads as that client. */
  lemma ClientLineReads(client: string)
    requires Text.Split(client, '\t')[0] != ""
    ensures ClientOf("C\t" + client) == Some(client) && !IsPlacementLine("C\t" + client)
  {
    TaggedLine('C', client);
    assert "C\t" + client == ['C', '\t'] + client && ['C'] == "C";
    assert "P"[0] != "C"[0];
  }

  lemma TaggedLine(tag: char, rest: string)
    requires tag != '\t'
    ensures SplitTab([tag, '\t'] + rest) == Some(([tag], rest))
  {
    Text.SplitHead([tag], rest, '\t');
    assert [tag] + ['\t'] + rest == [tag, '\t'] + rest;
    Text.JoinSplit(rest, '\t');
    var fields := Text.Split(rest, '\t');
    assert ([[tag]] + fields)[1..] == fields;
  }

  function ClientLines(clients: seq<string>): (lines: seq<string>)
    ensures |lines| == |clients| && forall k :: 0 <= k < |clients| ==> lines[k] == "C\t" + clients[k]
  {
    seq(|clients|, i requires 0 <= i < |clients| => "C\t" + clients[i])
  }

  ghost predicate HaveTtys(clients: seq<string>) {
    forall k :: 0 <= k < |clients| ==> Text.Split(clients[k], '\t')[0] != ""
  }

  lemma {:induction false} ClientLinesRead(clients: seq<string>)
    requires HaveTtys(clients)
    ensures Clients(ClientLines(clients)) == clients && NoPlacementLine(ClientLines(clients))
    decreases |clients|
  {
    hide Text.Split, ClientOf, IsPlacementLine;
    if clients != [] {
      var n := |clients| - 1;
      ClientLinesRead(clients[..n]);
      assert ClientLines(clients)[..n] == ClientLines(clients[..n]);
      ClientLineReads(clients[n]);
      forall k | 0 <= k < |clients| ensures !IsPlacementLine(ClientLines(clients)[k]) {
        ClientLineReads(clients[k]);
      }
      assert clients[..n] + [clients[n]] == clients;
    }
  }

  function PlacementLine(fields: seq<string>): string
    requires fields != []
  {
    "P\t" + Text.Join(fields, '\t')
  }

  /** What tmux prints, read back: wherever the placement line stands among the client lines, the
      placement and every client come out as they went in. */
  lemma ProbeReadsBack(fields: seq<string>, clients: seq<string>, i: nat, pane: string, parse: ParseReal, learned: Learned)
    requires HaveTtys(clients) && i <= |clients| && |fields| == 8
    requires forall k :: 0 <= k < 8 ==> '\t' !in fields[k]
    requires ReadPlacement(Text.Join(fields, '\t'), pane, parse, learned).Some?
    requires fields[6] != "" && fields[7] != ""
    ensures var lines := ClientLines(clients[..i]) + [PlacementLine(fields)] + ClientLines(clients[i..]);
            && Clients(lines) == clients
            && LastPlacement(lines, pane, parse, learned) == Some(Placement(fields[6], fields[7], pane))
  {
    hide Text.Split, Text.Join, ClientOf, Clients, LastPlacement;
    var a, b, p := clients[..i], clients[i..], PlacementLine(fields);
    PlacementLineReads(fields, pane, parse, learned);
    ClientLinesRead(a);
    ClientLinesRead(b);
    PlacementAnywhere(ClientLines(a), p, ClientLines(b), pane, parse, learned);
    ClientsAppend(ClientLines(a), ClientLines(b));
    assert a + b == clients;
  }

  lemma PlacementLineReads(fields: seq<string>, pane: string, parse: ParseReal, learned: Learned)
    requires |fields| == 8 && forall k :: 0 <= k < 8 ==> '\t' !in fields[k]
    requires ReadPlacement(Text.Join(fields, '\t'), pane, parse, learned).Some?
    requires fields[6] != "" && fields[7] != ""
    ensures IsPlacementLine(PlacementLine(fields))
    ensures var read := ReadPlacement(SplitTab(PlacementLine(fields)).value.1, pane, parse, learned);
            read.Some? && read.value.1 == Some(Placement(fields[6], fields[7], pane))
  {
    hide Text.Split, Text.Join, ParseUnsigned, ParsePixelSize;
    TaggedLine('P', Text.Join(fields, '\t'));
    assert PlacementLine(fields) == ['P', '\t'] + Text.Join(fields, '\t') && ['P'] == "P";
    Text.SplitJoin(fields, '\t');
  }

  // Numbers.

  lemma {:induction false} DigitsOfDecimal(n: nat)
    ensures forall k :: 0 <= k < |Text.Decimal(n)| ==> IsDigit(Text.Decimal(n)[k])
    ensures Digits(Text.Decimal(n)) == n
  {
    Text.DecimalDigits(n);
    var s := Text.Decimal(n);
    if n >= 10 {
      DigitsOfDecimal(n / 10);
      assert s[..|s| - 1] == Text.Decimal(n / 10);
    } else {
      assert s[..0] == "";
    }
  }

  /** A number as it is printed is read as that number, within the type. */
  lemma ParsesDecimal(n: nat, limit: nat)
    ensures ParseUnsigned(Text.Decimal(n), limit) == if n < limit then Some(n) else None
    ensures '\t' !in Text.Decimal(n)
  {
    hide Digits, Text.Decimal;
    DigitsOfDecimal(n);
    var s := Text.Decimal(n);
    assert IsDigit(s[0]);
  }

  /** What the size of so many cells comes to in pixels: the nearest whole number, and at least one, within
      16 bits. */
  ghost predicate Pixels(cells: nat, cell: real, size: nat) {
    size as real - 0.5 <= cells as real * cell < size as real + 0.5 && 1 <= size <= 65535
  }

  ghost predicate Fits(cells: nat, cell: Option<real>) {
    cell.Some? && cell.value > 0.0 && 0.5 <= cells as real * cell.value < 65535.5
  }

  lemma PixelSizeIs(cols: nat, rows: nat, cellWidth: string, cellHeight: string, parse: ParseReal)
    ensures var told := ParsePixelSize(cols, rows, cellWidth, cellHeight, parse);
            var w, h := parse(cellWidth), parse(cellHeight);
            && (told.Some? <==> Fits(cols, w) && Fits(rows, h))
            && (told.Some? ==> Pixels(cols, w.value, told.value.0) && Pixels(rows, h.value, told.value.1))
  {}

  /** The line for a pane of so many cells at such a place. */
  function PaneLine(cols: nat, rows: nat, left: nat, top: nat, cellWidth: string, cellHeight: string, session: string,
                    window: string): string
  {
    PlacementLine([Text.Decimal(cols), Text.Decimal(rows), Text.Decimal(left), Text.Decimal(top), cellWidth, cellHeight,
                   session, window])
  }

  /** What tmux prints of a pane reads back: its columns and rows, its left and top, and its size in pixels
      where the cell size tells that, the learned one otherwise. Numbers that do not fit, and a pane without
      a cell, are none. */
  lemma GeometryReadsBack(cols: nat, rows: nat, left: nat, top: nat, cellWidth: string, cellHeight: string, session: string,
                          window: string, before: seq<string>, after: seq<string>, pane: string, parse: ParseReal,
                          learned: Learned)
    requires HaveTtys(before) && HaveTtys(after)
    requires '\t' !in cellWidth && '\t' !in cellHeight && '\t' !in session && '\t' !in window
    ensures var line := PaneLine(cols, rows, left, top, cellWidth, cellHeight, session, window);
            var read := LastGeometry(ClientLines(before) + [line] + ClientLines(after), pane, parse, learned);
            && (read.Some? <==> 1 <= cols <= 65535 && 1 <= rows <= 65535 && left <= 4294967295 && top <= 4294967295)
            && (read.Some? ==> var g := read.value;
                 && g.cols == cols && g.rows == rows && g.left == left && g.top == top
                 && var w, h := parse(cellWidth), parse(cellHeight);
                    if Fits(cols, w) && Fits(rows, h) then Pixels(cols, w.value, g.width) && Pixels(rows, h.value, g.height)
                    else (g.width, g.height) == learned(cols, rows))
  {
    hide Text.Split, Text.Join, Text.Decimal, ClientOf, Clients, LastGeometry, ParseUnsigned, ParsePixelSize, Pixels, Fits;
    var fields := [Text.Decimal(cols), Text.Decimal(rows), Text.Decimal(left), Text.Decimal(top), cellWidth, cellHeight,
                   session, window];
    ParsesDecimal(cols, U16);
    ParsesDecimal(rows, U16);
    ParsesDecimal(left, U32);
    ParsesDecimal(top, U32);
    PixelSizeIs(cols, rows, cellWidth, cellHeight, parse);
    TaggedLine('P', Text.Join(fields, '\t'));
    assert PlacementLine(fields) == ['P', '\t'] + Text.Join(fields, '\t') && ['P'] == "P";
    Text.SplitJoin(fields, '\t');
    ClientLinesRead(before);
    ClientLinesRead(after);
    PlacementAnywhere(ClientLines(before), PlacementLine(fields), ClientLines(after), pane, parse, learned);
  }

  // Payloads and messages.

  function PlacementText(p: Placement): string {
    p.session + "\t" + p.window + "\t" + p.pane
  }

  /** What the engine is told: nothing when the pane could not be found. */
  function VisibilityPayload(probe: Probe): Option<string> {
    if probe.placement.None? then None
    else Some(Text.Join([PlacementText(probe.placement.value)] + probe.clients, '\n'))
  }

  /** The payload built line by line. */
  method BuildPayload(probe: Probe) returns (payload: Option<string>)
    ensures payload == VisibilityPayload(probe)
  {
    if probe.placement.None? {
      return None;
    }
    var head := PlacementText(probe.placement.value);
    var text := head;
    for i := 0 to |probe.clients|
      invariant text == Text.Join([head] + probe.clients[..i], '\n')
    {
      text := text + "\n";
      text := text + probe.clients[i];
      assert [head] + probe.clients[..i + 1] == ([head] + probe.clients[..i]) + [probe.clients[i]];
      Text.JoinConcat([head] + probe.clients[..i], [probe.clients[i]], '\n');
      assert Text.Join([probe.clients[i]], '\n') == probe.clients[i];
    }
    assert probe.clients[..|probe.clients|] == probe.clients;
    payload := Some(text);
  }

  /** What the engine reads from a payload: the placement's three fields and the clients. */
  lemma PayloadReadsBack(probe: Probe)
    requires probe.placement.Some?
    requires var p := probe.placement.value;
             forall s :: s in [p.session, p.window, p.pane] ==> '\t' !in s && '\n' !in s
    requires forall k :: 0 <= k < |probe.clients| ==> '\n' !in probe.clients[k]
    ensures var lines := Text.Split(VisibilityPayload(probe).value, '\n');
            var p := probe.placement.value;
            && lines[1..] == probe.clients
            && Text.Split(lines[0], '\t') == [p.session, p.window, p.pane]
  {
    hide Text.Split, Text.Join;
    var p := probe.placement.value;
    assert p.session in [p.session, p.window, p.pane] && p.window in [p.session, p.window, p.pane]
        && p.pane in [p.session, p.window, p.pane];
    var all := [PlacementText(p)] + probe.clients;
    Text.SplitJoin(all, '\n');
    Text.SplitHead(p.session, p.window + "\t" + p.pane, '\t');
    assert p.session + ['\t'] + (p.window + "\t" + p.pane) == PlacementText(p);
    Text.SplitHead(p.window, p.pane, '\t');
    assert p.window + ['\t'] + p.pane == p.window + "\t" + p.pane;
    Text.SplitNone(p.pane, '\t');
  }

  const VIS := "VIS "

  function VisibilityControlMessage(payload: string): string {
    VIS + EncodeHex(Utf8.Encode(payload)) + "\n"
  }

  /** A receiver of control lines. */
  function Received(message: string): Option<string> {
    if |message| < 5 || message[..4] != VIS || message[|message| - 1] != '\n' then None
    else
      match DecodeHex(message[4..|message| - 1])
      case None => None
      case Some(bytes) => Utf8.Decode(bytes)
  }

  /** Whatever a payload holds, its message is one line and decodes to it. */
  lemma MessageReadsBack(payload: string)
    ensures var message := VisibilityControlMessage(payload);
            && Received(message) == Some(payload)
            && message[|message| - 1] == '\n' && '\n' !in message[..|message| - 1]
  {
    hide DecodeHex, EncodeHex, Utf8.Encode, Utf8.Decode;
    var hex := EncodeHex(Utf8.Encode(payload));
    var message := VisibilityControlMessage(payload);
    HexRoundTrip(Utf8.Encode(payload));
    HexIsDigits(Utf8.Encode(payload));
    Utf8.RoundTrip(payload);
    assert message[..4] == VIS && message[4..|message| - 1] == hex;
    assert message[..|message| - 1] == VIS + hex;
    forall k | 0 <= k < |hex| ensures hex[k] != '\n' {
      assert IsHexDigit(hex[k]);
    }
  }

  // Pushes.

  class Reporter {
    var previous: Option<string>

    constructor ()
      ensures previous == None
    {
      previous := None;
    }

    method ChangedVisibilityMessage(probe: Probe) returns (message: Option<string>)
      modifies this
      ensures var payload := VisibilityPayload(probe);
              && previous == (if payload.Some? then payload else old(previous))
              && message == (if payload.Some? && payload != old(previous)
                             then Some(VisibilityControlMessage(payload.value)) else None)
    {
      var payload := VisibilityPayload(probe);
      if payload.None? || previous == payload {
        return None;
      }
      message := Some(VisibilityControlMessage(payload.value));
      previous := payload;
    }

    /** One probe after the other. */
    method Report(probes: seq<Probe>) returns (pushed: seq<string>)
      modifies this
      ensures pushed == Pushes(old(previous), probes)
      ensures previous == LastPayload(old(previous), probes)
    {
      pushed := [];
      ghost var first := previous;
      for i := 0 to |probes|
        invariant pushed == Pushes(first, probes[..i])
        invariant previous == LastPayload(first, probes[..i])
      {
        assert probes[..i + 1][..i] == probes[..i];
        var message := ChangedVisibilityMessage(probes[i]);
        assert pushed + [] == pushed;
        if message.Some? {
          pushed := pushed + [message.value];
        }
      }
      assert probes[..|probes|] == probes;
    }
  }

  /** What the last probe that found the pane said, or else what held before. */
  function LastPayload(previous: Option<string>, probes: seq<Probe>): Option<string> {
    if probes == [] then previous
    else
      var payload := VisibilityPayload(probes[|probes| - 1]);
      if payload.Some? then payload else LastPayload(previous, probes[..|probes| - 1])
  }

  function Pushes(previous: Option<string>, probes: seq<Probe>): seq<string> {
    if probes == [] then []
    else
      var before := probes[..|probes| - 1];
      var payload := VisibilityPayload(probes[|probes| - 1]);
      Pushes(previous, before)
      + if payload.Some? && payload != LastPayload(previous, before)
        then [VisibilityControlMessage(payload.value)] else []
  }

  /** What a receiver holds that keeps the last message it could decode. */
  function Held(previous: Option<string>, messages: seq<string>): Option<string> {
    if messages == [] then previous
    else
      var last := Received(messages[|messages| - 1]);
      if last.Some? then last else Held(previous, messages[..|messages| - 1])
  }

  /** At every point of every run the receiver holds what the last probe that found the pane said. */
  lemma {:induction false} ReceiverAgrees(previous: Option<string>, probes: seq<Probe>)
    ensures Held(previous, Pushes(previous, probes)) == LastPayload(previous, probes)
    decreases |probes|
  {
    hide VisibilityPayload, VisibilityControlMessage, Received;
    if probes != [] {
      var before := probes[..|probes| - 1];
      ReceiverAgrees(previous, before);
      var pushes := Pushes(previous, before);
      var payload := VisibilityPayload(probes[|probes| - 1]);
      if payload.Some? && payload != LastPayload(previous, before) {
        MessageReadsBack(payload.value);
        var all := pushes + [VisibilityControlMessage(payload.value)];
        assert all[..|all| - 1] == pushes;
      } else {
        assert pushes + [] == pushes;
      }
    }
  }

  /** Nothing is pushed twice running: each push is a message that decodes to something else than
      the one before it, and the first to something else than what held before. */
  lemma {:induction false} PushesDiffer(previous: Option<string>, probes: seq<Probe>, i: nat)
    requires i < |Pushes(previous, probes)|
    ensures Received(Pushes(previous, probes)[i]).Some?
    ensures Received(Pushes(previous, probes)[i])
         != if i == 0 then previous else Received(Pushes(previous, probes)[i - 1])
    decreases |probes|
  {
    hide VisibilityPayload, VisibilityControlMessage, Received;
    var before := probes[..|probes| - 1];
    var pushes := Pushes(previous, before);
    if i < |pushes| {
      PushesDiffer(previous, before, i);
    } else {
      MessageReadsBack(VisibilityPayload(probes[|probes| - 1]).value);
      ReceiverAgrees(previous, before);
      if i > 0 {
        PushesDiffer(previous, before, i - 1);
      }
    }
  }

  function Resolvable(probes: seq<Probe>): seq<Probe> {
    if probes == [] then []
    else
      Resolvable(probes[..|probes| - 1])
      + if probes[|probes| - 1].placement.Some? then [probes[|probes| - 1]] else []
  }

  /** A probe that could not find the pane changes nothing. */
  lemma {:induction false} UnresolvableDoNotMatter(previous: Option<string>, probes: seq<Probe>)
    ensures Pushes(previous, Resolvable(probes)) == Pushes(previous, probes)
    ensures LastPayload(previous, Resolvable(probes)) == LastPayload(previous, probes)
    decreases |probes|
  {
    hide VisibilityControlMessage;
    if probes != [] {
      var before, last := probes[..|probes| - 1], probes[|probes| - 1];
      UnresolvableDoNotMatter(previous, before);
      var kept := Resolvable(before);
      if last.placement.Some? {
        assert (kept + [last])[..|kept|] == kept;
      } else {
        assert kept + [] == kept;
        assert Pushes(previous, before) + [] == Pushes(previous, before);
      }
    }
  }
}
