/**
 A reader of shell text: quoting, token recognition, redirections and lists as in sections 2.2.1, 2.2.2,
 2.3, 2.7, 2.9.3 and 2.10 of the POSIX.1-2017 Shell Command Language. It gives up (`Stuck`) on everything
 that would make the shell do more than that: a double quote, an expansion, a pattern, a comment, a line
 continuation.
 */
module PosixShell {

  import opened Wrappers

  /** A character of a word, and whether it was quoted. */
  datatype Letter = Letter(c: char, quoted: bool)

  type Word = seq<Letter>

  /** A number right before `<` or `>` is a file descriptor. */
  datatype Token = Word(word: Word) | IoNumber(digits: string) | Operator(op: string)

  datatype Mode =
    | Between
    | InWord(word: Word)
    | InOperator(op: string)
    | InQuotes(word: Word)
    | AfterBackslash(word: Word)
    | Stuck

  datatype Reader = Reader(tokens: seq<Token>, mode: Mode)

  predicate Blank(c: char) {
    c == ' ' || c == '\t'
  }

  predicate OperatorChar(c: char) {
    c == '|' || c == '&' || c == ';' || c == '<' || c == '>' || c == '(' || c == ')' || c == '\n'
  }

  /** The operators, the newline included. */
  predicate IsOperator(op: string) {
    (|op| == 1 && OperatorChar(op[0])) ||
    op == "||" || op == "&&" || op == ";;" || op == "<<" || op == ">>" || op == "<&" || op == ">&" || op == "<>" ||
    op == ">|" || op == "<<-"
  }

  /** What the shell would expand or match, or take for a comment, were it not quoted. */
  predicate Special(c: char) {
    c == '$' || c == '`' || c == '"' || c == '*' || c == '?' || c == '[' || c == '#' || c == '~' || c == '%'
  }

  predicate Plain(c: char) {
    !Blank(c) && !OperatorChar(c) && !Special(c) && c != '\'' && c != '\\'
  }

  function Begun(r: Reader): Word {
    if r.mode.InWord? then r.mode.word else []
  }

  predicate IsNumber(w: Word) {
    w != [] && forall k :: 0 <= k < |w| ==> '0' <= w[k].c <= '9' && !w[k].quoted
  }

  /** The tokens once what was being read ends. */
  function Ended(r: Reader): seq<Token> {
    if r.mode.InWord? then r.tokens + [Word(r.mode.word)]
    else if r.mode.InOperator? then r.tokens + [Operator(r.mode.op)]
    else r.tokens
  }

  /** The same when an operator begins with this character. */
  function EndedBy(r: Reader, c: char): seq<Token> {
    if r.mode.InWord? && (c == '<' || c == '>') && IsNumber(r.mode.word)
    then r.tokens + [IoNumber(Meaning(r.mode.word))] else Ended(r)
  }

  /** Outside quotes and operators. */
  function StepPlain(r: Reader, c: char): Reader {
    if c == '\'' then r.(mode := InQuotes(Begun(r)))
    else if c == '\\' then r.(mode := AfterBackslash(Begun(r)))
    else if Blank(c) then Reader(Ended(r), Between)
    else if OperatorChar(c) then Reader(EndedBy(r, c), InOperator([c]))
    else if Special(c) then r.(mode := Stuck)
    else r.(mode := InWord(Begun(r) + [Letter(c, false)]))
  }

  function Step(r: Reader, c: char): Reader {
    match r.mode
    case Stuck => r
    case InQuotes(w) => r.(mode := if c == '\'' then InWord(w) else InQuotes(w + [Letter(c, true)]))
    case AfterBackslash(w) => r.(mode := if c == '\n' then Stuck else InWord(w + [Letter(c, true)]))
    case InOperator(op) =>
      if IsOperator(op + [c]) then r.(mode := InOperator(op + [c])) else StepPlain(Reader(Ended(r), Between), c)
    case _ => StepPlain(r, c)
  }

  function Run(r: Reader, s: string): Reader
    decreases |s|
  {
    if s == "" then r else Run(Step(r, s[0]), s[1..])
  }

  /** The tokens of a text, if it is whole and holds nothing the reader gives up on. */
  function Tokens(s: string): Option<seq<Token>> {
    var r := Run(Reader([], Between), s);
    if r.mode.Between? || r.mode.InWord? || r.mode.InOperator? then Some(Ended(r)) else None
  }

  lemma {:induction false} RunAppend(r: Reader, a: string, b: string)
    ensures Run(r, a + b) == Run(Run(r, a), b)
    decreases |a|
  {
    if a == "" {
      assert a + b == b;
    } else {
      assert (a + b)[1..] == a[1..] + b;
      RunAppend(Step(r, a[0]), a[1..], b);
    }
  }

  function Letters(s: string, quoted: bool): (w: Word)
    ensures |w| == |s| && forall k :: 0 <= k < |s| ==> w[k] == Letter(s[k], quoted)
  {
    seq(|s|, i requires 0 <= i < |s| => Letter(s[i], quoted))
  }

  lemma LettersStep(w: Word, s: string, quoted: bool)
    requires s != ""
    ensures w + [Letter(s[0], quoted)] + Letters(s[1..], quoted) == w + Letters(s, quoted)
  {}

  /** What a word stands for once its quoting is removed. */
  function Meaning(w: Word): (s: string)
    ensures |s| == |w| && forall k :: 0 <= k < |w| ==> s[k] == w[k].c
  {
    seq(|w|, i requires 0 <= i < |w| => w[i].c)
  }

  lemma MeaningOfLetters(s: string, quoted: bool)
    ensures Meaning(Letters(s, quoted)) == s
  {
    var m := Meaning(Letters(s, quoted));
    assert |m| == |s| && forall k :: 0 <= k < |s| ==> m[k] == s[k];
  }

  /** A run of plain characters begins a word or goes on with it. */
  lemma {:induction false} RunPlain(r: Reader, s: string)
    requires r.mode.Between? || r.mode.InWord?
    requires s != "" && forall k :: 0 <= k < |s| ==> Plain(s[k])
    ensures Run(r, s) == r.(mode := InWord(Begun(r) + Letters(s, false)))
    decreases |s|
  {
    var next := Step(r, s[0]);
    LettersStep(Begun(r), s, false);
    if |s| == 1 {
      assert s[1..] == "" && Letters(s, false) == [Letter(s[0], false)];
    } else {
      RunPlain(next, s[1..]);
    }
  }

  /** What is read inside single quotes. */
  lemma RunInQuotes(tokens: seq<Token>, w: Word, c: char)
    requires c != '\''
    ensures Run(Reader(tokens, InQuotes(w)), [c]) == Reader(tokens, InQuotes(w + [Letter(c, true)]))
  {}

  /** A name as in section 3.235 of POSIX.1-2017: what may stand before `=` in an assignment. */
  predicate NameChar(c: char) {
    'a' <= c <= 'z' || 'A' <= c <= 'Z' || '0' <= c <= '9' || c == '_'
  }

  predicate IsName(s: string) {
    s != "" && !('0' <= s[0] <= '9') && forall k :: 0 <= k < |s| ==> NameChar(s[k])
  }

  /** How many letters at the start of a word are unquoted and could be in a name. */
  function NameEnd(w: Word): (n: nat)
    ensures n <= |w|
  {
    if w == [] || w[0].quoted || !NameChar(w[0].c) then 0 else 1 + NameEnd(w[1..])
  }

  /** An assignment word: an unquoted name and an unquoted `=`. */
  predicate IsAssignment(w: Word) {
    var n := NameEnd(w);
    n < |w| && w[n] == Letter('=', false) && IsName(Meaning(w[..n]))
  }

  datatype Redirect = Redirect(fd: string, op: string, target: string)

  /** A simple command: the variables set for it, its argument vector, its redirections. */
  datatype Command = Command(env: seq<(string, string)>, argv: seq<string>, redirects: seq<Redirect>)

  predicate IsRedirection(op: string) {
    op == "<" || op == ">" || op == ">>" || op == "<&" || op == ">&" || op == "<>" || op == ">|"
  }

  /** The words and redirections of a simple command, assignments only before its first other word;
      none if any other operator stands among the tokens. */
  function Parse(tokens: seq<Token>, named: bool): Option<Command> {
    if tokens == [] then Some(Command([], [], []))
    else
      match tokens[0]
      case Word(w) =>
        var rest := Parse(tokens[1..], named || !IsAssignment(w));
        if rest.None? then None
        else if !named && IsAssignment(w) then
          var n := NameEnd(w);
          Some(rest.value.(env := [(Meaning(w[..n]), Meaning(w[n + 1..]))] + rest.value.env))
        else Some(rest.value.(argv := [Meaning(w)] + rest.value.argv))
      case Operator(op) =>
        if !IsRedirection(op) || |tokens| < 2 || !tokens[1].Word? then None
        else Redirected(Redirect("", op, Meaning(tokens[1].word)), Parse(tokens[2..], named))
      case IoNumber(fd) =>
        if |tokens| < 3 || !tokens[1].Operator? || !IsRedirection(tokens[1].op) || !tokens[2].Word? then None
        else Redirected(Redirect(fd, tokens[1].op, Meaning(tokens[2].word)), Parse(tokens[3..], named))
  }

  function Redirected(redirect: Redirect, rest: Option<Command>): Option<Command> {
    if rest.None? then None else Some(rest.value.(redirects := [redirect] + rest.value.redirects))
  }

  function Simple(tokens: seq<Token>): Option<Command> {
    Parse(tokens, false)
  }

  /** Commands with `&&` or `||` between them. */
  datatype AndOrList = AndOrList(commands: seq<Command>, ops: seq<string>)

  predicate ListOperator(token: Token) {
    token == Operator("&&") || token == Operator("||")
  }

  function NextAndOr(tokens: seq<Token>): (n: nat)
    ensures n <= |tokens|
  {
    if tokens == [] || ListOperator(tokens[0]) then 0
    else 1 + NextAndOr(tokens[1..])
  }

  function AndOr(tokens: seq<Token>): Option<AndOrList> {
    var n := NextAndOr(tokens);
    var first := Simple(tokens[..n]);
    if first.None? then None
    else if n == |tokens| then Some(AndOrList([first.value], []))
    else
      var rest := AndOr(tokens[n + 1..]);
      if rest.None? || !tokens[n].Operator? then None
      else Some(AndOrList([first.value] + rest.value.commands, [tokens[n].op] + rest.value.ops))
  }

  function Words(words: seq<Word>): (tokens: seq<Token>)
    ensures |tokens| == |words| && forall k :: 0 <= k < |words| ==> tokens[k] == Word(words[k])
  {
    seq(|words|, i requires 0 <= i < |words| => Word(words[i]))
  }

  function Meanings(words: seq<Word>): (r: seq<string>)
    ensures |r| == |words| && forall k :: 0 <= k < |words| ==> r[k] == Meaning(words[k])
  {
    seq(|words|, i requires 0 <= i < |words| => Meaning(words[i]))
  }

  lemma {:induction false} NameEndOf(name: string, tail: Word)
    requires forall k :: 0 <= k < |name| ==> NameChar(name[k])
    requires tail != [] && (tail[0].quoted || !NameChar(tail[0].c))
    ensures NameEnd(Letters(name, false) + tail) == |name|
  {
    var w := Letters(name, false) + tail;
    if name != "" {
      NameEndOf(name[1..], tail);
      assert w[1..] == Letters(name[1..], false) + tail;
    } else {
      assert w == tail;
    }
  }

  /** A word whose first letter is quoted sets nothing, whatever it looks like. */
  lemma QuotedIsNoAssignment(w: Word)
    requires w == [] || w[0].quoted
    ensures !IsAssignment(w)
  {}

  lemma PlainWordIsNoAssignment(s: string)
    requires forall k :: 0 <= k < |s| ==> s[k] != '='
    ensures !IsAssignment(Letters(s, false))
  {
    var w := Letters(s, false);
    assert forall k :: 0 <= k < |w| ==> w[k].c == s[k];
  }

  lemma ParseWord(w: Word, rest: seq<Token>, named: bool, command: Command)
    requires named || !IsAssignment(w)
    requires Parse(rest, true) == Some(command)
    ensures Parse([Token.Word(w)] + rest, named) == Some(command.(argv := [Meaning(w)] + command.argv))
  {
    assert ([Token.Word(w)] + rest)[1..] == rest;
  }

  lemma FirstWord(words: seq<Word>)
    requires words != []
    ensures Words(words) == [Token.Word(words[0])] + Words(words[1..])
    ensures Meanings(words) == [Meaning(words[0])] + Meanings(words[1..])
  {
    hide Meaning;
  }

  lemma NoWords()
    ensures Words([]) == [] && Meanings([]) == []
  {}

  /** From the first word that is no assignment on, every word is an argument. */
  lemma {:induction false} ArgumentsOfWords(words: seq<Word>, named: bool)
    requires named || (words != [] && !IsAssignment(words[0]))
    ensures Parse(Words(words), named) == Some(Command([], Meanings(words), []))
    decreases |words|
  {
    hide Parse, IsAssignment, Meaning, Words, Meanings;
    if words == [] {
      NoWords();
      NothingToParse(named);
    } else {
      var first, rest := words[0], words[1..];
      ArgumentsOfWords(rest, true);
      FirstWord(words);
      ParseWord(first, Words(rest), named, Command([], Meanings(rest), []));
    }
  }

  lemma NothingToParse(named: bool)
    ensures Parse([], named) == Some(Command([], [], []))
  {}

  lemma ParseAssignment(w: Word, rest: seq<Token>, command: Command, name: string, value: string)
    requires IsAssignment(w) && Parse(rest, false) == Some(command)
    requires Meaning(w[..NameEnd(w)]) == name && Meaning(w[NameEnd(w) + 1..]) == value
    ensures Parse([Token.Word(w)] + rest, false) == Some(command.(env := [(name, value)] + command.env))
  {
    hide NameEnd;
    assert ([Token.Word(w)] + rest)[1..] == rest;
  }

  lemma ParseRedirection(op: string, w: Word, rest: seq<Token>, named: bool, command: Command)
    requires IsRedirection(op)
    requires Parse(rest, named) == Some(command)
    ensures Parse([Operator(op), Token.Word(w)] + rest, named)
         == Some(command.(redirects := [Redirect("", op, Meaning(w))] + command.redirects))
  {
    assert ([Operator(op), Token.Word(w)] + rest)[2..] == rest;
  }

  lemma ParseNumbered(fd: string, op: string, w: Word, rest: seq<Token>, named: bool, command: Command)
    requires IsRedirection(op)
    requires Parse(rest, named) == Some(command)
    ensures Parse([IoNumber(fd), Operator(op), Token.Word(w)] + rest, named)
         == Some(command.(redirects := [Redirect(fd, op, Meaning(w))] + command.redirects))
  {
    assert ([IoNumber(fd), Operator(op), Token.Word(w)] + rest)[3..] == rest;
  }

  lemma {:induction false} SplitsAt(left: seq<Token>, right: seq<Token>)
    requires forall k :: 0 <= k < |left| ==> !ListOperator(left[k])
    requires right == [] || ListOperator(right[0])
    ensures NextAndOr(left + right) == |left|
  {
    if left != [] {
      SplitsAt(left[1..], right);
      assert (left + right)[1..] == left[1..] + right;
    }
  }

  lemma AndOrOfOne(tokens: seq<Token>, command: Command)
    requires forall k :: 0 <= k < |tokens| ==> !ListOperator(tokens[k])
    requires Simple(tokens) == Some(command)
    ensures AndOr(tokens) == Some(AndOrList([command], []))
  {
    hide Simple, NextAndOr, ListOperator;
    SplitsAt(tokens, []);
    assert tokens + [] == tokens && tokens[..|tokens|] == tokens;
  }

  /** Two simple commands with a list operator between them. */
  lemma AndOrOfTwo(left: seq<Token>, op: string, right: seq<Token>, a: Command, b: Command)
    requires forall k :: 0 <= k < |left| ==> !ListOperator(left[k])
    requires forall k :: 0 <= k < |right| ==> !ListOperator(right[k])
    requires ListOperator(Operator(op)) && Simple(left) == Some(a) && Simple(right) == Some(b)
    ensures AndOr(left + [Operator(op)] + right) == Some(AndOrList([a, b], [op]))
  {
    AndOrOfOne(right, b);
    hide Simple, NextAndOr, ListOperator, AndOr;
    var tail := [Operator(op)] + right;
    var all := left + [Operator(op)] + right;
    assert all == left + tail;
    SplitsAt(left, tail);
    var n := |left|;
    assert all[..n] == left && all[n] == Operator(op) && all[n + 1..] == right;
    AndOrUnfolds(all, n, a, AndOrList([b], []));
    assert [a] + [b] == [a, b] && [op] + [] == [op];
  }

  lemma AndOrUnfolds(tokens: seq<Token>, n: nat, first: Command, rest: AndOrList)
    requires n < |tokens| && NextAndOr(tokens) == n && tokens[n].Operator?
    requires Simple(tokens[..n]) == Some(first) && AndOr(tokens[n + 1..]) == Some(rest)
    ensures AndOr(tokens) == Some(AndOrList([first] + rest.commands, [tokens[n].op] + rest.ops))
  {
    hide Simple, NextAndOr, ListOperator;
  }

  predicate IsPlain(s: string) {
    s != "" && forall k :: 0 <= k < |s| ==> Plain(s[k])
  }

  /** Text without quotes, read as a word. */
  function Bare(s: string): Token {
    Word(Letters(s, false))
  }

  lemma PlainFromBlank(tokens: seq<Token>, text: string)
    requires IsPlain(text)
    ensures Run(Reader(tokens, Between), text) == Reader(tokens, InWord(Letters(text, false)))
    ensures Ended(Run(Reader(tokens, Between), text)) == tokens + [Bare(text)]
  {
    RunPlain(Reader(tokens, Between), text);
    assert [] + Letters(text, false) == Letters(text, false);
  }

  lemma BlankEnds(r: Reader)
    requires r.mode.InWord? || r.mode.Between? || r.mode.InOperator?
    ensures Run(r, " ") == Reader(Ended(r), Between)
  {
    assert " "[1..] == "";
    if r.mode.InOperator? {
      NotOperator(r.mode.op, ' ');
    }
  }

  /** Only the characters of operators, and a dash, go on with an operator. */
  lemma NotOperator(op: string, c: char)
    requires !OperatorChar(c) && c != '-'
    ensures !IsOperator(op + [c])
  {
    var longer := op + [c];
    assert longer[|longer| - 1] == c;
  }

  /** A blank ends the word before it, and plain text is a word of its own. */
  lemma NextBare(r: Reader, text: string)
    requires (r.mode.InWord? || r.mode.Between? || r.mode.InOperator?) && IsPlain(text)
    ensures Run(r, " " + text) == Reader(Ended(r), InWord(Letters(text, false)))
    ensures Ended(Run(r, " " + text)) == Ended(r) + [Bare(text)]
  {
    RunAppend(r, " ", text);
    BlankEnds(r);
    PlainFromBlank(Ended(r), text);
  }

  lemma NextOperator(r: Reader, c: char)
    requires (r.mode.InWord? || r.mode.Between?) && OperatorChar(c)
    ensures Run(r, [c]) == Reader(EndedBy(r, c), InOperator([c]))
  {
    assert [c][1..] == "";
  }

  lemma LongerOperator(r: Reader, c: char)
    requires r.mode.InOperator? && IsOperator(r.mode.op + [c])
    ensures Run(r, [c]) == r.(mode := InOperator(r.mode.op + [c]))
  {
    assert [c][1..] == "";
  }

  /** Plain text right behind an operator is a word of its own. */
  lemma PlainFromOperator(r: Reader, text: string)
    requires r.mode.InOperator? && IsPlain(text) && text[0] != '-'
    ensures Run(r, text) == Reader(Ended(r), InWord(Letters(text, false)))
    ensures Ended(Run(r, text)) == Ended(r) + [Bare(text)]
  {
    PlainFromBlank(Ended(r), text);
    NotOperator(r.mode.op, text[0]);
    assert Step(r, text[0]) == Step(Reader(Ended(r), Between), text[0]);
  }
}
