/** The command line of a split pane, which tmux gives to a shell. */
module PaneCommandLine {

  import opened Wrappers
  import opened PosixShell
  import opened ShellQuote
  import Text

  datatype Engine = Electron | Chrome | Webkit

  /** A pane's options, once flags and settings are resolved. */
  datatype BrowserOptions = BrowserOptions(
    engine: Engine, frameRate: nat, adaptive: bool, ssh: Option<string>, transparent: bool)

  type Env = seq<(string, string)>

  function EngineName(engine: Engine): string {
    match engine
    case Electron => "electron"
    case Chrome => "chrome"
    case Webkit => "webkit"
  }

  function RateFlag(adaptive: bool): string {
    if adaptive then "--adaptive-frame-rate" else "--no-adaptive-frame-rate"
  }

  function FixedArgs(o: BrowserOptions): string {
    "--engine " + EngineName(o.engine) + " --frame-rate " + Text.Decimal(o.frameRate) + " " + RateFlag(o.adaptive)
  }

  function SshArg(ssh: Option<string>): string {
    if ssh.Some? then " --ssh=" + Quote(ssh.value) else ""
  }

  function TransparentArg(transparent: bool): string {
    if transparent then " --transparent" else ""
  }

  function UrlArg(url: Option<string>): string {
    if url.Some? then " " + Quote(url.value) else ""
  }

  function ShellArgs(o: BrowserOptions): string {
    FixedArgs(o) + SshArg(o.ssh) + TransparentArg(o.transparent)
  }

  const PASSED_ON := ["TWEB_ELECTRON", "TWEB_ELECTRON_DIR", "TWEB_WEBKIT", "TWEB_NATIVE_INPUT"]

  /** Those of the named variables that are set, in the order of the names. */
  function SetAmong(names: seq<string>, vars: map<string, string>): Env {
    if names == [] then []
    else (if names[0] in vars then [(names[0], vars[names[0]])] else []) + SetAmong(names[1..], vars)
  }

  lemma {:induction false} SetAmongAppend(a: seq<string>, b: seq<string>, vars: map<string, string>)
    ensures SetAmong(a + b, vars) == SetAmong(a, vars) + SetAmong(b, vars)
  {
    if a == [] {
      assert a + b == b;
    } else {
      assert (a + b)[1..] == a[1..] + b;
      SetAmongAppend(a[1..], b, vars);
    }
  }

  function EnvText(env: Env): string {
    if env == [] then "" else env[0].0 + "=" + Quote(env[0].1) + " " + EnvText(env[1..])
  }

  lemma {:induction false} EnvTextAppend(a: Env, b: Env)
    ensures EnvText(a + b) == EnvText(a) + EnvText(b)
  {
    if a == [] {
      assert a + b == b;
    } else {
      assert (a + b)[1..] == a[1..] + b;
      EnvTextAppend(a[1..], b);
    }
  }

  lemma EnvTextPush(env: Env, name: string, value: string)
    ensures EnvText(env + [(name, value)]) == EnvText(env) + (name + "=" + Quote(value) + " ")
  {
    EnvTextAppend(env, [(name, value)]);
    assert [(name, value)][1..] == [];
  }

  lemma SetAmongPush(names: seq<string>, name: string, vars: map<string, string>)
    ensures SetAmong(names + [name], vars)
         == SetAmong(names, vars) + if name in vars then [(name, vars[name])] else []
  {
    SetAmongAppend(names, [name], vars);
    assert [name][1..] == [];
  }

  function PaneCommand(env: Env, exe: string, o: BrowserOptions, url: Option<string>): string {
    EnvText(env) + Quote(exe) + " __pane " + ShellArgs(o) + UrlArg(url)
  }

  lemma EmptyEnvText()
    ensures EnvText([]) == ""
  {}

  lemma EmptySetAmong(vars: map<string, string>)
    ensures SetAmong([], vars) == []
  {}

  function AssignmentWord(name: string, value: string): Word {
    Letters(name, false) + [Letter('=', false)] + Letters(value, true)
  }

  function AssignmentWords(env: Env): (r: seq<Word>)
    ensures |r| == |env| && forall k :: 0 <= k < |env| ==> r[k] == AssignmentWord(env[k].0, env[k].1)
  {
    seq(|env|, i requires 0 <= i < |env| => AssignmentWord(env[i].0, env[i].1))
  }

  lemma PlainName(name: string)
    requires IsName(name)
    ensures IsPlain(name + "=")
  {}

  /** One assignment, read: the unquoted name, `=`, and the value whatever it holds. */
  lemma EnvWordReads(tokens: seq<Token>, name: string, value: string)
    requires IsName(name)
    ensures Run(Reader(tokens, Between), name + "=" + Quote(value) + " ")
         == Reader(tokens + [Word(AssignmentWord(name, value))], Between)
  {
    hide Run, Step, Quote;
    var r := Reader(tokens, Between);
    RunAppend(r, name + "=" + Quote(value), " ");
    RunAppend(r, name + "=", Quote(value));
    PlainName(name);
    PlainFromBlank(tokens, name + "=");
    var r1 := Run(r, name + "=");
    RunQuote(r1, value);
    assert Letters(name + "=", false) + Letters(value, true) == AssignmentWord(name, value);
    BlankEnds(Run(r1, Quote(value)));
  }

  /** The variables have names a shell takes for names. */
  ghost predicate Names(env: Env) {
    forall k :: 0 <= k < |env| ==> IsName(env[k].0)
  }

  lemma RunNothing(r: Reader)
    ensures Run(r, "") == r
  {}

  lemma {:induction false} EnvReads(tokens: seq<Token>, env: Env)
    requires Names(env)
    ensures Run(Reader(tokens, Between), EnvText(env)) == Reader(tokens + Words(AssignmentWords(env)), Between)
    decreases |env|
  {
    hide Run, Step, Quote, AssignmentWord, IsName, Words, AssignmentWords;
    AssignmentTokens(env);
    if env == [] {
      RunNothing(Reader(tokens, Between));
      assert tokens + [] == tokens;
    } else {
      var one := env[0].0 + "=" + Quote(env[0].1) + " ";
      RunAppend(Reader(tokens, Between), one, EnvText(env[1..]));
      EnvWordReads(tokens, env[0].0, env[0].1);
      var next := tokens + [Word(AssignmentWord(env[0].0, env[0].1))];
      EnvReads(next, env[1..]);
      var rest := Words(AssignmentWords(env[1..]));
      assert next + rest == tokens + ([Word(AssignmentWord(env[0].0, env[0].1))] + rest);
    }
  }

  lemma AssignmentTokens(env: Env)
    ensures env == [] ==> Words(AssignmentWords(env)) == []
    ensures env != [] ==>
              Words(AssignmentWords(env)) == [Word(AssignmentWord(env[0].0, env[0].1))] + Words(AssignmentWords(env[1..]))
  {
    hide AssignmentWord;
  }

  function SshWords(ssh: Option<string>): seq<Word> {
    if ssh.Some? then [Letters("--ssh=", false) + Letters(ssh.value, true)] else []
  }

  function UrlWords(url: Option<string>): seq<Word> {
    if url.Some? then [Letters(url.value, true)] else []
  }

  function TransparentTexts(transparent: bool): seq<string> {
    if transparent then ["--transparent"] else []
  }

  function FixedTexts(o: BrowserOptions): seq<string> {
    ["__pane", "--engine", EngineName(o.engine), "--frame-rate", Text.Decimal(o.frameRate), RateFlag(o.adaptive)]
  }

  function PlainWords(texts: seq<string>): (r: seq<Word>)
    ensures |r| == |texts| && forall k :: 0 <= k < |texts| ==> r[k] == Letters(texts[k], false)
  {
    seq(|texts|, i requires 0 <= i < |texts| => Letters(texts[i], false))
  }

  function PaneWords(exe: string, o: BrowserOptions, url: Option<string>): seq<Word> {
    [Letters(exe, true)] + PlainWords(FixedTexts(o)) + SshWords(o.ssh) + PlainWords(TransparentTexts(o.transparent))
    + UrlWords(url)
  }

  /** The arguments the pane is meant to get. */
  function PaneArgv(exe: string, o: BrowserOptions, url: Option<string>): seq<string> {
    [exe] + FixedTexts(o)
    + (if o.ssh.Some? then ["--ssh=" + o.ssh.value] else [])
    + TransparentTexts(o.transparent)
    + (if url.Some? then [url.value] else [])
  }

  /** From inside a word, a reader goes over `text` to exactly these further words. */
  ghost predicate Extends(r: Reader, text: string, words: seq<Word>) {
    && r.mode.InWord?
    && Run(r, text).mode.InWord?
    && Ended(Run(r, text)) == Ended(r) + Words(words)
  }

  lemma ExtendsBoth(r: Reader, a: string, b: string, u: seq<Word>, v: seq<Word>)
    requires Extends(r, a, u) && Extends(Run(r, a), b, v)
    ensures Extends(r, a + b, u + v)
  {
    hide Run, Ended;
    RunAppend(r, a, b);
    assert Words(u + v) == Words(u) + Words(v);
    assert Ended(r) + (Words(u) + Words(v)) == (Ended(r) + Words(u)) + Words(v);
  }

  lemma ExtendsNone(r: Reader)
    requires r.mode.InWord?
    ensures Extends(r, "", [])
  {
    assert Words([]) == [];
    assert Ended(r) + [] == Ended(r);
  }

  lemma ExtendsInWord(r: Reader, text: string, words: seq<Word>)
    requires Extends(r, text, words)
    ensures Run(r, text).mode.InWord? && Ended(Run(r, text)) == Ended(r) + Words(words)
  {}

  lemma ExtendsBare(r: Reader, text: string)
    requires r.mode.InWord? && IsPlain(text)
    ensures Extends(r, " " + text, [Letters(text, false)])
  {
    hide Run;
    NextBare(r, text);
    assert Words([Letters(text, false)]) == [Bare(text)];
  }

  lemma ExtendsQuoted(r: Reader, lead: string, value: string)
    requires r.mode.InWord? && (lead == "" || IsPlain(lead))
    ensures Extends(r, " " + lead + Quote(value), [Letters(lead, false) + Letters(value, true)])
  {
    hide Run, Step, Quote;
    RunAppend(r, " " + lead, Quote(value));
    if lead == "" {
      BlankEnds(r);
      assert " " + lead == " ";
    } else {
      NextBare(r, lead);
    }
    var r1 := Run(r, " " + lead);
    RunQuote(r1, value);
    var w := Letters(lead, false) + Letters(value, true);
    assert Words([w]) == [Word(w)];
    assert Begun(r1) == Letters(lead, false);
  }

  /** Each text with a blank before it. */
  function Spaced(texts: seq<string>): string {
    if texts == [] then "" else " " + texts[0] + Spaced(texts[1..])
  }

  lemma {:induction false} PlainWordsRead(r: Reader, texts: seq<string>)
    requires r.mode.InWord? && forall k :: 0 <= k < |texts| ==> IsPlain(texts[k])
    ensures Extends(r, Spaced(texts), PlainWords(texts))
    decreases |texts|
  {
    hide Run, Step, IsPlain;
    if texts == [] {
      ExtendsNone(r);
      assert PlainWords(texts) == [];
    } else {
      ExtendsBare(r, texts[0]);
      PlainWordsRead(Run(r, " " + texts[0]), texts[1..]);
      ExtendsBoth(r, " " + texts[0], Spaced(texts[1..]), [Letters(texts[0], false)], PlainWords(texts[1..]));
      assert [Letters(texts[0], false)] + PlainWords(texts[1..]) == PlainWords(texts);
    }
  }

  lemma SpacedSix(a: string, b: string, c: string, d: string, e: string, f: string)
    ensures Spaced([a, b, c, d, e, f]) == " " + a + " " + b + " " + c + " " + d + " " + e + " " + f
  {
    SpacedThree(d, e, f, []);
    SpacedThree(a, b, c, [d, e, f]);
    assert [a, b, c] + [d, e, f] == [a, b, c, d, e, f] && [d, e, f] + [] == [d, e, f];
  }

  lemma SpacedThree(a: string, b: string, c: string, rest: seq<string>)
    ensures Spaced([a, b, c] + rest) == " " + a + " " + b + " " + c + Spaced(rest)
  {
    assert ([a, b, c] + rest)[1..] == [b, c] + rest;
    assert ([b, c] + rest)[1..] == [c] + rest;
    assert ([c] + rest)[1..] == rest;
    var tail := Spaced(rest);
    assert Spaced([c] + rest) == " " + c + tail;
    assert Spaced([b, c] + rest) == " " + b + (" " + c + tail);
    assert " " + a + (" " + b + (" " + c + tail)) == " " + a + " " + b + " " + c + tail;
  }

  lemma RateFlagPlain(adaptive: bool)
    ensures IsPlain(RateFlag(adaptive))
  {
    if adaptive {
      PlainRateFlag();
    } else {
      PlainNoRateFlag();
    }
  }

  lemma PlainRateFlag()
    ensures IsPlain("--adaptive-frame-rate")
  {}

  lemma PlainNoRateFlag()
    ensures IsPlain("--no-adaptive-frame-rate")
  {}

  lemma DecimalPlain(n: nat)
    ensures IsPlain(Text.Decimal(n))
  {
    Text.DecimalDigits(n);
    var s := Text.Decimal(n);
    forall k | 0 <= k < |s| ensures Plain(s[k]) {
      assert '0' <= s[k] <= '9';
    }
  }

  lemma EngineNamePlain(engine: Engine)
    ensures IsPlain(EngineName(engine))
  {}

  lemma LiteralsPlain()
    ensures IsPlain("__pane") && IsPlain("--engine") && IsPlain("--frame-rate")
  {}

  lemma FixedTextsPlain(o: BrowserOptions)
    ensures forall k :: 0 <= k < 6 ==> IsPlain(FixedTexts(o)[k])
  {
    hide IsPlain, EngineName, RateFlag, Text.Decimal;
    RateFlagPlain(o.adaptive);
    DecimalPlain(o.frameRate);
    EngineNamePlain(o.engine);
    LiteralsPlain();
  }

  /** The words of the fixed part, first spaced out by the caller and then one by one. */
  lemma Regrouped(a: string, b: string, c: string, d: string, e: string, f: string)
    ensures " " + a + " " + (b + " " + c + " " + d + " " + e + " " + f) == Spaced([a, b, c, d, e, f])
  {
    hide Spaced;
    SpacedSix(a, b, c, d, e, f);
    var tail := " " + d + " " + e + " " + f;
    assert b + " " + c + " " + d + " " + e + " " + f == b + " " + c + tail;
    assert " " + a + " " + b + " " + c + " " + d + " " + e + " " + f == " " + a + " " + b + " " + c + tail;
    assert " " + a + " " + (b + " " + c + tail) == " " + a + " " + b + " " + c + tail;
  }

  lemma FixedLiterals(engine: string, rate: string, flag: string)
    ensures "--engine " + engine + " --frame-rate " + rate + " " + flag
         == "--engine" + " " + engine + " " + "--frame-rate" + " " + rate + " " + flag
    ensures " __pane " == " " + "__pane" + " "
  {
    assert "--engine " == "--engine" + " ";
    assert " --frame-rate " == " " + "--frame-rate" + " ";
    var head := "--engine" + " " + engine;
    assert head + " --frame-rate " == head + " " + "--frame-rate" + " ";
  }

  lemma FixedArgsRead(r: Reader, o: BrowserOptions)
    requires r.mode.InWord?
    ensures Extends(r, " __pane " + FixedArgs(o), PlainWords(FixedTexts(o)))
  {
    hide Run, Step, Extends, IsPlain, Text.Decimal, EngineName, RateFlag, Spaced;
    FixedTextsPlain(o);
    PlainWordsRead(r, FixedTexts(o));
    var engine, rate, flag := EngineName(o.engine), Text.Decimal(o.frameRate), RateFlag(o.adaptive);
    FixedLiterals(engine, rate, flag);
    Regrouped("__pane", "--engine", engine, "--frame-rate", rate, flag);
  }

  lemma SshReads(r: Reader, ssh: Option<string>)
    requires r.mode.InWord?
    ensures Extends(r, SshArg(ssh), SshWords(ssh))
  {
    hide Run, Step, Extends, Quote;
    if ssh.Some? {
      ExtendsQuoted(r, "--ssh=", ssh.value);
      assert " " + "--ssh=" + Quote(ssh.value) == " --ssh=" + Quote(ssh.value);
    } else {
      ExtendsNone(r);
    }
  }

  lemma TransparentReads(r: Reader, transparent: bool)
    requires r.mode.InWord?
    ensures Extends(r, TransparentArg(transparent), PlainWords(TransparentTexts(transparent)))
  {
    hide Run, Step, Extends;
    assert IsPlain("--transparent");
    PlainWordsRead(r, TransparentTexts(transparent));
    assert Spaced(TransparentTexts(transparent)) == TransparentArg(transparent);
  }

  lemma UrlReads(r: Reader, url: Option<string>)
    requires r.mode.InWord?
    ensures Extends(r, UrlArg(url), UrlWords(url))
  {
    hide Run, Step, Extends, Quote;
    if url.Some? {
      ExtendsQuoted(r, "", url.value);
      assert " " + "" + Quote(url.value) == " " + Quote(url.value);
      assert Letters("", false) + Letters(url.value, true) == Letters(url.value, true);
    } else {
      ExtendsNone(r);
    }
  }

  /** Everything behind the program's name. */
  lemma ArgumentsRead(r: Reader, o: BrowserOptions, url: Option<string>)
    requires r.mode.InWord?
    ensures Extends(r, " __pane " + ShellArgs(o) + UrlArg(url), PaneWords("", o, url)[1..])
  {
    hide Run, Step, Extends, FixedArgs, SshArg, TransparentArg, UrlArg, FixedTexts, TransparentTexts, SshWords, UrlWords;
    var a, b, c, d := " __pane " + FixedArgs(o), SshArg(o.ssh), TransparentArg(o.transparent), UrlArg(url);
    var wa, wb := PlainWords(FixedTexts(o)), SshWords(o.ssh);
    var wc, wd := PlainWords(TransparentTexts(o.transparent)), UrlWords(url);
    FixedArgsRead(r, o);
    ExtendsInWord(r, a, wa);
    SshReads(Run(r, a), o.ssh);
    ExtendsBoth(r, a, b, wa, wb);
    ExtendsInWord(r, a + b, wa + wb);
    TransparentReads(Run(r, a + b), o.transparent);
    ExtendsBoth(r, a + b, c, wa + wb, wc);
    ExtendsInWord(r, a + b + c, wa + wb + wc);
    UrlReads(Run(r, a + b + c), url);
    ExtendsBoth(r, a + b + c, d, wa + wb + wc, wd);
    assert a + b + c + d == " __pane " + ShellArgs(o) + d;
    assert PaneWords("", o, url)[1..] == wa + wb + wc + wd;
  }

  lemma AssignmentMeans(name: string, value: string)
    requires IsName(name)
    ensures var w := AssignmentWord(name, value);
            var n := NameEnd(w);
            IsAssignment(w) && n < |w| && Meaning(w[..n]) == name && Meaning(w[n + 1..]) == value
  {
    var w := AssignmentWord(name, value);
    var tail := [Letter('=', false)] + Letters(value, true);
    NameEndOf(name, tail);
    assert w == Letters(name, false) + tail;
    assert w[..|name|] == Letters(name, false) && w[|name| + 1..] == Letters(value, true);
    MeaningOfLetters(name, false);
    MeaningOfLetters(value, true);
  }

  lemma SimpleAssigned(name: string, value: string, rest: seq<Token>, command: Command)
    requires IsName(name) && Simple(rest) == Some(command)
    ensures Simple([Token.Word(AssignmentWord(name, value))] + rest)
         == Some(command.(env := [(name, value)] + command.env))
  {
    AssignmentMeans(name, value);
    hide IsAssignment, NameEnd, Parse, AssignmentWord, IsName;
    ParseAssignment(AssignmentWord(name, value), rest, command, name, value);
  }

  lemma SimpleIs(words: seq<Word>)
    ensures Simple(Words(words)) == Parse(Words(words), false)
  {
    hide Parse;
  }

  lemma {:induction false} SimpleEnv(env: Env, words: seq<Word>)
    requires Names(env) && words != [] && !IsAssignment(words[0])
    ensures Simple(Words(AssignmentWords(env) + words)) == Some(Command(env, Meanings(words), []))
    decreases |env|
  {
    hide IsAssignment, Simple, AssignmentWord, IsName, Meanings;
    var all := AssignmentWords(env) + words;
    if env == [] {
      assert all == words;
      ArgumentsOfWords(words, false);
      SimpleIs(words);
    } else {
      SimpleEnv(env[1..], words);
      var name, value, rest := env[0].0, env[0].1, Words(AssignmentWords(env[1..]) + words);
      assert Words(all) == [Token.Word(AssignmentWord(name, value))] + rest;
      SimpleAssigned(name, value, rest, Command(env[1..], Meanings(words), []));
      assert [(name, value)] + env[1..] == env;
    }
  }

  lemma PaneMeanings(exe: string, o: BrowserOptions, url: Option<string>)
    ensures Meanings(PaneWords(exe, o, url)) == PaneArgv(exe, o, url)
  {
    hide FixedTexts;
    MeaningOfLetters(exe, true);
    forall k | 0 <= k < |FixedTexts(o)| ensures Meaning(PlainWords(FixedTexts(o))[k]) == FixedTexts(o)[k] {
      MeaningOfLetters(FixedTexts(o)[k], false);
    }
    MeaningOfLetters("--transparent", false);
    if url.Some? {
      MeaningOfLetters(url.value, true);
    }
    if o.ssh.Some? {
      assert Meaning(Letters("--ssh=", false) + Letters(o.ssh.value, true)) == "--ssh=" + o.ssh.value;
    }
  }

  /** The text up to the end of the program's name. */
  lemma ProgramReads(env: Env, exe: string)
    requires Names(env)
    ensures Run(Reader([], Between), EnvText(env) + Quote(exe))
         == Reader(Words(AssignmentWords(env)), InWord(Letters(exe, true)))
  {
    hide Run, Step, Quote, EnvText;
    RunAppend(Reader([], Between), EnvText(env), Quote(exe));
    EnvReads([], env);
    var tokens := Words(AssignmentWords(env));
    assert [] + tokens == tokens;
    RunQuote(Reader(tokens, Between), exe);
    assert [] + Letters(exe, true) == Letters(exe, true);
  }

  lemma PaneTokens(env: Env, exe: string, o: BrowserOptions, url: Option<string>)
    requires Names(env)
    ensures Tokens(PaneCommand(env, exe, o, url)) == Some(Words(AssignmentWords(env) + PaneWords(exe, o, url)))
  {
    hide Run, Step, ShellArgs, Quote, Extends, UrlArg, EnvText, FixedTexts, TransparentTexts, SshWords, UrlWords;
    hide PlainWords, Letters, AssignmentWords;
    var tail := " __pane " + ShellArgs(o) + UrlArg(url);
    var start := Reader([], Between);
    assert PaneCommand(env, exe, o, url) == EnvText(env) + Quote(exe) + tail;
    RunAppend(start, EnvText(env) + Quote(exe), tail);
    ProgramReads(env, exe);
    var r := Run(start, EnvText(env) + Quote(exe));
    ArgumentsRead(r, o, url);
    var rest := PaneWords("", o, url)[1..];
    ExtendsInWord(r, tail, rest);
    assert PaneWords(exe, o, url) == [Letters(exe, true)] + rest;
    WordsAround(AssignmentWords(env), Letters(exe, true), rest);
  }

  lemma WordsAround(a: seq<Word>, w: Word, b: seq<Word>)
    ensures Words(a) + [Token.Word(w)] + Words(b) == Words(a + ([w] + b))
  {}

  /** A shell reads one simple command from the text, which sets exactly these variables and runs
      exactly the intended arguments. */
  ghost predicate Reads(command: string, env: Env, exe: string, o: BrowserOptions, url: Option<string>) {
    var tokens := Tokens(command);
    tokens.Some? && Simple(tokens.value) == Some(Command(env, PaneArgv(exe, o, url), []))
  }

  /** The split pane's command line, for every value of every part. */
  lemma PaneCommandReadsBack(env: Env, exe: string, o: BrowserOptions, url: Option<string>)
    requires Names(env)
    ensures Reads(PaneCommand(env, exe, o, url), env, exe, o, url)
  {
    hide Tokens, PaneCommand, Simple, PaneArgv, FixedTexts, TransparentTexts, SshWords, UrlWords, IsAssignment;
    PaneTokens(env, exe, o, url);
    QuotedIsNoAssignment(Letters(exe, true));
    SimpleEnv(env, PaneWords(exe, o, url));
    PaneMeanings(exe, o, url);
  }

  /** The arguments spelled out. */
  lemma PaneArgvIs(exe: string, o: BrowserOptions, url: Option<string>)
    ensures PaneArgv(exe, o, url)
         == [exe, "__pane",
             "--engine", match o.engine case Electron => "electron" case Chrome => "chrome" case Webkit => "webkit",
             "--frame-rate", Text.Decimal(o.frameRate),
             if o.adaptive then "--adaptive-frame-rate" else "--no-adaptive-frame-rate"]
            + (if o.ssh.Some? then ["--ssh=" + o.ssh.value] else [])
            + (if o.transparent then ["--transparent"] else [])
            + (if url.Some? then [url.value] else [])
  {
    hide Text.Decimal;
  }

  /** What a DevTools pane is started with on top. */
  const DEVTOOLS_ENV: Env := [("TWEB_START_VIMIUM", "0")]

  lemma DevtoolsNames()
    ensures Names(DEVTOOLS_ENV)
  {
    assert IsName("TWEB_START_VIMIUM");
  }

  lemma {:induction false} SetAmongNames(names: seq<string>, vars: map<string, string>)
    requires forall k :: 0 <= k < |names| ==> IsName(names[k])
    ensures Names(SetAmong(names, vars))
  {
    hide IsName;
    if names != [] {
      SetAmongNames(names[1..], vars);
    }
  }

  lemma {:induction false} SetAmongIs(names: seq<string>, vars: map<string, string>, name: string, value: string)
    ensures (name, value) in SetAmong(names, vars) <==> name in names && name in vars && vars[name] == value
  {
    if names != [] {
      SetAmongIs(names[1..], vars, name, value);
    }
  }

  /** What is passed on: these four variables, as far as they are set, with their values. */
  lemma PassedOnIs(vars: map<string, string>, name: string, value: string)
    ensures (name, value) in SetAmong(PASSED_ON, vars) <==>
            name in {"TWEB_ELECTRON", "TWEB_ELECTRON_DIR", "TWEB_WEBKIT", "TWEB_NATIVE_INPUT"} &&
            name in vars && vars[name] == value
  {
    hide SetAmong;
    SetAmongIs(PASSED_ON, vars, name, value);
    assert name in PASSED_ON <==>
           name == "TWEB_ELECTRON" || name == "TWEB_ELECTRON_DIR" || name == "TWEB_WEBKIT" || name == "TWEB_NATIVE_INPUT";
  }

  lemma NamesOfBoth(a: Env, b: Env)
    requires Names(a) && Names(b)
    ensures Names(a + b)
  {}

  lemma PassedOnNames(vars: map<string, string>)
    ensures Names(SetAmong(PASSED_ON, vars))
  {
    forall k | 0 <= k < |PASSED_ON| ensures IsName(PASSED_ON[k]) {
      assert IsName("TWEB_ELECTRON");
      assert IsName("TWEB_ELECTRON_DIR");
      assert IsName("TWEB_WEBKIT");
      assert IsName("TWEB_NATIVE_INPUT");
    }
    SetAmongNames(PASSED_ON, vars);
  }

  /** The command of a split pane: the overrides set here, what the caller adds, and the pane. */
  method BuildPaneCommand(vars: map<string, string>, extra: Env, exe: string, o: BrowserOptions, url: Option<string>)
    returns (command: string)
    ensures command == PaneCommand(SetAmong(PASSED_ON, vars) + extra, exe, o, url)
    ensures Names(extra) ==> Reads(command, SetAmong(PASSED_ON, vars) + extra, exe, o, url)
  {
    hide Quote, EnvText, SetAmong, Reads, ShellArgs, UrlArg, Names;
    var envStr := "";
    assert EnvText([]) == "" by { EmptyEnvText(); }
    assert SetAmong([], vars) == [] by { EmptySetAmong(vars); }
    for i := 0 to |PASSED_ON|
      invariant envStr == EnvText(SetAmong(PASSED_ON[..i], vars))
    {
      var name := PASSED_ON[i];
      assert PASSED_ON[..i + 1] == PASSED_ON[..i] + [name];
      SetAmongPush(PASSED_ON[..i], name, vars);
      if name in vars {
        envStr := envStr + (name + "=" + Quote(vars[name]) + " ");
        EnvTextPush(SetAmong(PASSED_ON[..i], vars), name, vars[name]);
      } else {
        assert SetAmong(PASSED_ON[..i + 1], vars) == SetAmong(PASSED_ON[..i], vars);
      }
    }
    assert PASSED_ON[..|PASSED_ON|] == PASSED_ON;
    ghost var passed := SetAmong(PASSED_ON, vars);
    assert passed + extra[..0] == passed;
    for i := 0 to |extra|
      invariant envStr == EnvText(passed + extra[..i])
    {
      envStr := envStr + (extra[i].0 + "=" + Quote(extra[i].1) + " ");
      assert passed + extra[..i + 1] == (passed + extra[..i]) + [(extra[i].0, extra[i].1)];
      EnvTextPush(passed + extra[..i], extra[i].0, extra[i].1);
    }
    assert extra[..|extra|] == extra;
    command := envStr + Quote(exe) + " __pane " + ShellArgs(o) + UrlArg(url);
    if Names(extra) {
      PassedOnNames(vars);
      NamesOfBoth(passed, extra);
      PaneCommandReadsBack(passed + extra, exe, o, url);
    }
  }

  /** The command `tweb devtools` opens: no condition is left. */
  method BuildDevtoolsCommand(vars: map<string, string>, exe: string, o: BrowserOptions, url: string)
    returns (command: string)
    ensures Reads(command, SetAmong(PASSED_ON, vars) + DEVTOOLS_ENV, exe, o, Some(url))
  {
    DevtoolsNames();
    command := BuildPaneCommand(vars, DEVTOOLS_ENV, exe, o, Some(url));
  }
}
