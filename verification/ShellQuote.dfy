/** Quoting a value for a shell, and what a shell makes of it. */
module ShellQuote {

  import opened Wrappers
  import opened PosixShell

  /** Every single quote leaves the quotes, stands escaped, and opens them again. */
  function QuoteBody(value: string): string {
    if value == "" then ""
    else (if value[0] == '\'' then "'\\''" else [value[0]]) + QuoteBody(value[1..])
  }

  function Quote(value: string): string {
    "'" + QuoteBody(value) + "'"
  }

  lemma RunQuoteEscape(tokens: seq<Token>, w: Word)
    ensures Run(Reader(tokens, InQuotes(w)), "'\\''") == Reader(tokens, InQuotes(w + [Letter('\'', true)]))
  {
    var s := "'\\''";
    assert s[1..] == "\\''" && s[1..][1..] == "''" && s[1..][1..][1..] == "'" && s[1..][1..][1..][1..] == "";
    var r1 := Reader(tokens, InWord(w));
    var r2 := Reader(tokens, AfterBackslash(w));
    var r3 := Reader(tokens, InWord(w + [Letter('\'', true)]));
    assert Step(Reader(tokens, InQuotes(w)), '\'') == r1;
    assert Step(r1, '\\') == r2;
    assert Step(r2, '\'') == r3;
    assert Run(r3, "'") == Run(Step(r3, '\''), "");
  }

  lemma {:induction false} RunQuoteBody(tokens: seq<Token>, w: Word, value: string)
    ensures Run(Reader(tokens, InQuotes(w)), QuoteBody(value)) == Reader(tokens, InQuotes(w + Letters(value, true)))
    decreases |value|
  {
    hide Step;
    if value == "" {
      assert w + Letters(value, true) == w;
    } else {
      var first := if value[0] == '\'' then "'\\''" else [value[0]];
      RunAppend(Reader(tokens, InQuotes(w)), first, QuoteBody(value[1..]));
      LettersStep(w, value, true);
      if value[0] == '\'' {
        RunQuoteEscape(tokens, w);
      } else {
        RunInQuotes(tokens, w, value[0]);
      }
      RunQuoteBody(tokens, w + [Letter(value[0], true)], value[1..]);
    }
  }

  /** A quoted value is part of one word, every character of it quoted. */
  lemma RunQuote(r: Reader, value: string)
    requires r.mode.Between? || r.mode.InWord?
    ensures Run(r, Quote(value)) == r.(mode := InWord(Begun(r) + Letters(value, true)))
  {
    var body := QuoteBody(value);
    RunAppend(r, "'" + body, "'");
    RunAppend(r, "'", body);
    assert "'"[1..] == "";
    assert Run(r, "'") == Step(r, '\'') == Reader(r.tokens, InQuotes(Begun(r)));
    RunQuoteBody(r.tokens, Begun(r), value);
    var w := Begun(r) + Letters(value, true);
    assert Run(Reader(r.tokens, InQuotes(w)), "'") == Step(Reader(r.tokens, InQuotes(w)), '\'');
  }

  /** Any value, read back by the shell, is one word and is that value. */
  lemma QuotedReadsBack(value: string)
    ensures Tokens(Quote(value)) == Some([Word(Letters(value, true))])
    ensures Meaning(Letters(value, true)) == value
  {
    RunQuote(Reader([], Between), value);
    assert Run(Reader([], Between), Quote(value)) == Reader([], InWord(Letters(value, true))) by {
      assert [] + Letters(value, true) == Letters(value, true);
    }
    assert [] + [Word(Letters(value, true))] == [Word(Letters(value, true))];
    MeaningOfLetters(value, true);
  }
}
