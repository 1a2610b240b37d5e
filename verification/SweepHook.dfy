/**
 The hook that makes tmux run a sweep: a shell command inside a double-quoted argument of a tmux
 command. Three readers take it apart again: tmux when the hook fires, its `run-shell`, and a shell.
 */
module SweepHook {

  import opened Wrappers
  import opened PosixShell
  import opened ShellQuote

  predicate TmuxSpecial(c: char) {
    c == '"' || c == '\\' || c == '$'
  }

  function TmuxEscape(value: string): string {
    if value == "" then ""
    else (if TmuxSpecial(value[0]) then ['\\', value[0]] else [value[0]]) + TmuxEscape(value[1..])
  }

  lemma {:induction false} TmuxEscapeAppend(a: string, b: string)
    ensures TmuxEscape(a + b) == TmuxEscape(a) + TmuxEscape(b)
  {
    if a == "" {
      assert a + b == b;
    } else {
      assert (a + b)[1..] == a[1..] + b;
      TmuxEscapeAppend(a[1..], b);
    }
  }

  method EscapeForTmux(value: string) returns (escaped: string)
    ensures escaped == TmuxEscape(value)
  {
    escaped := "";
    for i := 0 to |value|
      invariant escaped == TmuxEscape(value[..i])
    {
      if TmuxSpecial(value[i]) {
        escaped := escaped + ['\\'];
      }
      escaped := escaped + [value[i]];
      assert value[..i + 1] == value[..i] + [value[i]];
      TmuxEscapeAppend(value[..i], [value[i]]);
      assert [value[i]][1..] == "";
    }
    assert value[..|value|] == value;
  }

  /** What tmux reads after an opening double quote: the string up to the closing quote and the text
      behind it. None where a `$` would expand, a backslash stands before something it does not
      merely escape, or no quote closes the string. */
  function ReadDoubleQuoted(s: string): Option<(string, string)> {
    if s == "" || s[0] == '$' then None
    else if s[0] == '"' then Some(("", s[1..]))
    else if s[0] == '\\' then
      if |s| < 2 || !(s[1] == '"' || s[1] == '\\' || s[1] == '$') then None
      else
        var rest := ReadDoubleQuoted(s[2..]);
        if rest.None? then None else Some(([s[1]] + rest.value.0, rest.value.1))
    else
      var rest := ReadDoubleQuoted(s[1..]);
      if rest.None? then None else Some(([s[0]] + rest.value.0, rest.value.1))
  }

  lemma ReadOne(c: char, tail: string)
    requires ReadDoubleQuoted(tail).Some?
    ensures ReadDoubleQuoted((if TmuxSpecial(c) then ['\\', c] else [c]) + tail)
         == Some(([c] + ReadDoubleQuoted(tail).value.0, ReadDoubleQuoted(tail).value.1))
  {
    if TmuxSpecial(c) {
      assert (['\\', c] + tail)[2..] == tail;
    } else {
      assert ([c] + tail)[1..] == tail;
    }
  }

  /** The outer layer: tmux reads back what was escaped, and ends the string where it was ended. */
  lemma {:induction false} EscapedReadsBack(value: string, rest: string)
    ensures ReadDoubleQuoted(TmuxEscape(value) + "\"" + rest) == Some((value, rest))
  {
    hide ReadDoubleQuoted;
    if value == "" {
      assert TmuxEscape(value) + "\"" + rest == "\"" + rest;
      ReadEnd(rest);
    } else {
      EscapedReadsBack(value[1..], rest);
      var first := if TmuxSpecial(value[0]) then ['\\', value[0]] else [value[0]];
      ReadOne(value[0], TmuxEscape(value[1..]) + "\"" + rest);
      assert TmuxEscape(value) + "\"" + rest == first + (TmuxEscape(value[1..]) + "\"" + rest);
      assert [value[0]] + value[1..] == value;
    }
  }

  lemma ReadEnd(rest: string)
    ensures ReadDoubleQuoted("\"" + rest) == Some(("", rest))
  {
    assert ("\"" + rest)[1..] == rest;
  }

  // The formats of `run-shell`.

  /** What tmux does not copy behind a `#`: a format, a job, an alias, an escape. */
  predicate FormatBegins(c: char) {
    c == '{' || c == '(' || c == '#' || c == ',' || c == '}' ||
    c == 'D' || c == 'F' || c == 'H' || c == 'h' || c == 'I' || c == 'P' || c == 'S' || c == 'T' || c == 'W'
  }

  /** What `run-shell` makes of its argument, if there is nothing in it to expand. */
  function ReadFormats(s: string): Option<string> {
    if s == "" then Some("")
    else if s[0] == '#' && |s| > 1 && FormatBegins(s[1]) then None
    else
      var rest := ReadFormats(s[1..]);
      if rest.None? then None else Some([s[0]] + rest.value)
  }

  /** No `#` stands before one of those. */
  ghost predicate FormatFree(s: string) {
    forall k :: 0 <= k < |s| - 1 ==> !(s[k] == '#' && FormatBegins(s[k + 1]))
  }

  lemma {:induction false} ReadFormatsIff(s: string)
    ensures ReadFormats(s).Some? <==> FormatFree(s)
    ensures ReadFormats(s).Some? ==> ReadFormats(s) == Some(s)
  {
    hide FormatFree, FormatBegins;
    if s == "" {
      NoFormats();
    } else {
      ReadFormatsIff(s[1..]);
      FormatFreeFirst(s);
      assert [s[0]] + s[1..] == s;
    }
  }

  lemma NoFormats()
    ensures FormatFree("")
  {}

  /** Quoting for the shell neither makes nor breaks a format: a quote is none's beginning. */
  lemma {:induction false} QuoteBodyFormats(value: string, rest: string)
    requires rest != "" && !FormatBegins(rest[0])
    ensures FormatFree(QuoteBody(value) + rest) <==> FormatFree(value) && FormatFree(rest)
  {
    hide FormatBegins;
    if value == "" {
      assert QuoteBody(value) + rest == rest;
    } else {
      var first := if value[0] == '\'' then "'\\''" else [value[0]];
      var tail := QuoteBody(value[1..]) + rest;
      assert QuoteBody(value) + rest == first + tail;
      QuoteBodyFormats(value[1..], rest);
      FormatFreeFirst(value);
      PlainQuotes();
      if value[0] == '\'' {
        FourthIsFree(tail);
      } else {
        FormatFreeFirst([value[0]] + tail);
        assert ([value[0]] + tail)[1..] == tail;
        if |value| > 1 && value[1] != '\'' {
          assert tail[0] == value[1];
        }
      }
    }
  }

  lemma PlainQuotes()
    ensures !FormatBegins('\'') && !FormatBegins('\\') && !FormatBegins(' ')
  {}

  lemma FormatFreeFirst(s: string)
    requires s != ""
    ensures FormatFree(s) <==> !(s[0] == '#' && |s| > 1 && FormatBegins(s[1])) && FormatFree(s[1..])
  {
    var tail := s[1..];
    assert forall k :: 0 <= k < |tail| ==> tail[k] == s[k + 1];
    if FormatFree(tail) && !(s[0] == '#' && |s| > 1 && FormatBegins(s[1])) {
      forall k | 0 <= k < |s| - 1 ensures !(s[k] == '#' && FormatBegins(s[k + 1])) {
        if k > 0 {
          assert tail[k - 1] == s[k] && tail[k] == s[k + 1];
        }
      }
    }
    if FormatFree(s) {
      forall k | 0 <= k < |tail| - 1 ensures !(tail[k] == '#' && FormatBegins(tail[k + 1])) {
        assert s[k + 1] == tail[k] && s[k + 2] == tail[k + 1];
      }
    }
  }

  lemma FourthIsFree(tail: string)
    ensures FormatFree("'\\''" + tail) <==> FormatFree(tail)
  {
    var s := "'\\''" + tail;
    FormatFreeFirst(s);
    FormatFreeFirst(s[1..]);
    FormatFreeFirst(s[2..]);
    FormatFreeFirst(s[3..]);
    assert s[1..][1..] == s[2..] && s[2..][1..] == s[3..] && s[3..][1..] == tail;
  }

  const HOOKS := ["pane-exited", "after-kill-pane", "window-unlinked", "session-closed"]

  const HOOK_INDEX := "73"

  const SWEEP_TAIL := " __sweep-images >/dev/null 2>&1 || true"

  const RUN_SHELL := "run-shell -b \""

  function HookShell(tweb: string): string {
    Quote(tweb) + SWEEP_TAIL
  }

  function HookRun(tweb: string): string {
    RUN_SHELL + TmuxEscape(HookShell(tweb)) + "\""
  }

  function HookCommands(tweb: string): seq<seq<string>> {
    seq(|HOOKS|, k requires 0 <= k < |HOOKS| =>
      ["set-hook", "-g", HOOKS[k] + "[" + HOOK_INDEX + "]", HookRun(tweb)])
  }

  /** The one argument, both outputs to the null device, and `|| true`. */
  function SweepTokens(): seq<Token> {
    [Bare("__sweep-images"), Operator(">"), Bare("/dev/null"), IoNumber("2"), Operator(">&"), Bare("1"),
     Operator("||"), Bare("true")]
  }

  lemma RedirectReads(r: Reader)
    requires r.mode.InWord?
    ensures Run(r, " >/dev/null").mode.InWord?
    ensures Ended(Run(r, " >/dev/null")) == Ended(r) + [Operator(">"), Bare("/dev/null")]
  {
    hide Run, Step;
    assert " >/dev/null" == " " + (">" + "/dev/null");
    RunAppend(r, " ", ">" + "/dev/null");
    BlankEnds(r);
    var r1 := Reader(Ended(r), Between);
    RunAppend(r1, ">", "/dev/null");
    NextOperator(r1, '>');
    assert IsPlain("/dev/null");
    PlainFromOperator(Run(r1, ">"), "/dev/null");
  }

  lemma MergeReads(r: Reader)
    requires r.mode.InWord?
    ensures Run(r, " 2>&1").mode.InWord?
    ensures Ended(Run(r, " 2>&1")) == Ended(r) + [IoNumber("2"), Operator(">&"), Bare("1")]
  {
    hide Run, Step;
    assert " 2>&1" == " 2" + (">" + ("&" + "1"));
    RunAppend(r, " 2", ">" + ("&" + "1"));
    assert IsPlain("2") && IsPlain("1") && " 2" == " " + "2";
    NextBare(r, "2");
    var r1 := Run(r, " 2");
    MeaningOfLetters("2", false);
    RunAppend(r1, ">", "&" + "1");
    NextOperator(r1, '>');
    var r2 := Run(r1, ">");
    assert r2 == Reader(Ended(r) + [IoNumber("2")], InOperator(">"));
    RunAppend(r2, "&", "1");
    assert ">" + ['&'] == ">&";
    LongerOperator(r2, '&');
    PlainFromOperator(Run(r2, "&"), "1");
  }

  lemma OrTrueReads(r: Reader)
    requires r.mode.InWord?
    ensures Run(r, " || true").mode.InWord?
    ensures Ended(Run(r, " || true")) == Ended(r) + [Operator("||"), Bare("true")]
  {
    hide Run, Step;
    assert " || true" == " " + ("|" + ("|" + " true"));
    RunAppend(r, " ", "|" + ("|" + " true"));
    BlankEnds(r);
    var r1 := Run(r, " ");
    RunAppend(r1, "|", "|" + " true");
    NextOperator(r1, '|');
    var r2 := Run(r1, "|");
    RunAppend(r2, "|", " true");
    assert "|" + ['|'] == "||";
    LongerOperator(r2, '|');
    assert IsPlain("true") && " true" == " " + "true";
    NextBare(Run(r2, "|"), "true");
  }

  lemma SweepTailReads(r: Reader)
    requires r.mode.InWord?
    ensures Run(r, SWEEP_TAIL).mode.InWord?
    ensures Ended(Run(r, SWEEP_TAIL)) == Ended(r) + SweepTokens()
  {
    hide Run, Step, Ended;
    var a, b, c, d := " __sweep-images", " >/dev/null", " 2>&1", " || true";
    assert SWEEP_TAIL == a + b + c + d;
    RunAppend(r, a + b + c, d);
    RunAppend(r, a + b, c);
    RunAppend(r, a, b);
    assert IsPlain("__sweep-images");
    assert a == " " + "__sweep-images";
    NextBare(r, "__sweep-images");
    RedirectReads(Run(r, a));
    MergeReads(Run(r, a + b));
    OrTrueReads(Run(r, a + b + c));
  }

  lemma HookTokens(tweb: string)
    ensures Tokens(HookShell(tweb)) == Some([Word(Letters(tweb, true))] + SweepTokens())
  {
    hide Run, Step, Quote;
    var start := Reader([], Between);
    RunQuote(start, tweb);
    RunAppend(start, Quote(tweb), SWEEP_TAIL);
    var w := Letters(tweb, true);
    assert [] + w == w;
    SweepTailReads(Reader([], InWord(w)));
    assert [] + [Word(w)] + SweepTokens() == [Word(w)] + SweepTokens();
  }

  /** What the shell is to do: run the program with its one argument, both outputs discarded, and if
      that fails, succeed. */
  function SweepList(tweb: string): AndOrList {
    AndOrList([Command([], [tweb, "__sweep-images"], [Redirect("", ">", "/dev/null"), Redirect("2", ">&", "1")]),
               Command([], ["true"], [])],
              ["||"])
  }

  /** The program, its argument and both redirections. */
  function SweepProgram(tweb: string): seq<Token> {
    [Word(Letters(tweb, true))]
    + ([Bare("__sweep-images")]
       + ([Operator(">"), Bare("/dev/null")] + ([IoNumber("2"), Operator(">&"), Bare("1")] + [])))
  }

  lemma SweepProgramMeans(tweb: string)
    ensures Simple(SweepProgram(tweb)) == Some(SweepList(tweb).commands[0])
  {
    hide IsAssignment, Parse;
    QuotedIsNoAssignment(Letters(tweb, true));
    MeaningOfLetters(tweb, true);
    MeaningOfLetters("__sweep-images", false);
    MeaningOfLetters("/dev/null", false);
    MeaningOfLetters("1", false);
    NothingToParse(true);
    var merge, discard := Redirect("2", ">&", "1"), Redirect("", ">", "/dev/null");
    assert [merge] + [] == [merge] && [discard] + [merge] == [discard, merge];
    assert ["__sweep-images"] + [] == ["__sweep-images"];
    var t3 := [IoNumber("2"), Operator(">&"), Bare("1")] + [];
    ParseNumbered("2", ">&", Letters("1", false), [], true, Command([], [], []));
    var t2 := [Operator(">"), Bare("/dev/null")] + t3;
    ParseRedirection(">", Letters("/dev/null", false), t3, true, Command([], [], [merge]));
    var t1 := [Bare("__sweep-images")] + t2;
    ParseWord(Letters("__sweep-images", false), t2, true, Command([], [], [discard, merge]));
    ParseWord(Letters(tweb, true), t1, false, Command([], ["__sweep-images"], [discard, merge]));
    assert [tweb] + ["__sweep-images"] == [tweb, "__sweep-images"];
  }

  lemma TrueMeans()
    ensures Simple([Bare("true")]) == Some(Command([], ["true"], []))
  {
    hide IsAssignment, Parse;
    PlainWordIsNoAssignment("true");
    MeaningOfLetters("true", false);
    NothingToParse(true);
    ParseWord(Letters("true", false), [], false, Command([], [], []));
    assert [Bare("true")] + [] == [Bare("true")] && ["true"] + [] == ["true"];
  }

  lemma SweepTokensMean(tweb: string)
    ensures AndOr([Word(Letters(tweb, true))] + SweepTokens()) == Some(SweepList(tweb))
  {
    hide AndOr, Simple, Letters;
    SweepProgramMeans(tweb);
    TrueMeans();
    AndOrOfTwo(SweepProgram(tweb), "||", [Bare("true")], SweepList(tweb).commands[0], Command([], ["true"], []));
    assert [Word(Letters(tweb, true))] + SweepTokens() == SweepProgram(tweb) + [Operator("||")] + [Bare("true")];
  }

  lemma SweepTailFree()
    ensures FormatFree("'" + SWEEP_TAIL) && SWEEP_TAIL != ""
  {
    var s := "'" + SWEEP_TAIL;
    forall k | 0 <= k < |s| ensures s[k] != '#' {
      if k > 0 { assert s[k] == SWEEP_TAIL[k - 1]; }
    }
  }

  /** `run-shell` copies the command exactly if there is no format in the path. */
  lemma HookFormatsIff(tweb: string)
    ensures ReadFormats(HookShell(tweb)) == Some(HookShell(tweb)) <==> FormatFree(tweb)
    ensures ReadFormats(HookShell(tweb)).Some? <==> FormatFree(tweb)
  {
    hide FormatFree, FormatBegins, ReadFormats, QuoteBody, SWEEP_TAIL;
    var rest := "'" + SWEEP_TAIL;
    ReadFormatsIff(HookShell(tweb));
    PlainQuotes();
    SweepTailFree();
    assert HookShell(tweb) == "'" + (QuoteBody(tweb) + rest);
    FormatFreeFirst("'" + (QuoteBody(tweb) + rest));
    assert ("'" + (QuoteBody(tweb) + rest))[1..] == QuoteBody(tweb) + rest;
    QuoteBodyFormats(tweb, rest);
  }

  /** All three layers together, for every hook and every path of the binary without a format in it: the
      string tmux reads is the shell command, nothing is left behind its closing quote, `run-shell`
      passes it on as it is, and what the shell runs is exactly that path with the one argument. For
      a path with a format, `run-shell` passes on something else. */
  lemma HookRunsProgram(tweb: string, k: nat)
    requires k < |HOOKS|
    ensures var run := HookCommands(tweb)[k][3];
            && HookCommands(tweb)[k] == ["set-hook", "-g", HOOKS[k] + "[73]", run]
            && "run-shell -b \"" <= run
            && ReadDoubleQuoted(run[|"run-shell -b \""|..]) == Some((HookShell(tweb), ""))
    ensures ReadFormats(HookShell(tweb)) == if FormatFree(tweb) then Some(HookShell(tweb)) else None
    ensures Tokens(HookShell(tweb)).Some? && AndOr(Tokens(HookShell(tweb)).value) == Some(SweepList(tweb))
  {
    hide Tokens, ReadDoubleQuoted, TmuxEscape, HookShell, AndOr, SweepTokens, SweepList, ReadFormats, FormatFree;
    EscapedReadsBack(HookShell(tweb), "");
    assert HookRun(tweb)[|RUN_SHELL|..] == TmuxEscape(HookShell(tweb)) + "\"" + "";
    assert HOOKS[k] + "[" + HOOK_INDEX + "]" == HOOKS[k] + "[73]" by {
      assert "[" + HOOK_INDEX + "]" == "[73]";
      assert HOOKS[k] + "[" + HOOK_INDEX + "]" == HOOKS[k] + ("[" + HOOK_INDEX + "]");
    }
    HookFormatsIff(tweb);
    HookTokens(tweb);
    SweepTokensMean(tweb);
  }
}
