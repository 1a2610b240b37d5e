/** The parts of Rust's `str` the models use: white space, trimming, splitting and joining. */
module Text {

  /** `char::is_whitespace`: the Unicode White_Space property. */
  predicate IsSpace(c: char) {
    c == ' ' || '\U{9}' <= c <= '\U{d}' || c == '\U{85}' || c == '\U{a0}' || c == '\U{1680}' ||
    '\U{2000}' <= c <= '\U{200a}' || c == '\U{2028}' || c == '\U{2029}' || c == '\U{202f}' ||
    c == '\U{205f}' || c == '\U{3000}'
  }

  predicate AllSpace(s: string) {
    forall k :: 0 <= k < |s| ==> IsSpace(s[k])
  }

  function TrimEnd(s: string): (r: string)
    ensures r <= s && AllSpace(s[|r|..])
    ensures r != "" ==> !IsSpace(r[|r| - 1])
  {
    if s != "" && IsSpace(s[|s| - 1]) then TrimEnd(s[..|s| - 1]) else s
  }

  function TrimStart(s: string): (r: string)
    ensures |r| <= |s| && r == s[|s| - |r|..] && AllSpace(s[..|s| - |r|])
    ensures r != "" ==> !IsSpace(r[0])
  {
    if s != "" && IsSpace(s[0]) then TrimStart(s[1..]) else s
  }

  function Trim(s: string): string {
    TrimEnd(TrimStart(s))
  }

  lemma TrimFacts(s: string)
    ensures Trimmed(Trim(s)) && |Trim(s)| <= |s|
    ensures Trim(s) == "" <==> AllSpace(s)
  {
    hide TrimEnd, TrimStart;
    var t := TrimStart(s);
    var r := Trim(s);
    if r == "" {
      assert t[|r|..] == t;
      assert s == s[..|s| - |t|] + t;
    } else {
      assert r[0] == t[0] == s[|s| - |t|];
    }
  }

  /** A string without white space at its ends. */
  predicate Trimmed(s: string) {
    s != "" ==> !IsSpace(s[0]) && !IsSpace(s[|s| - 1])
  }

  lemma TrimTrimmed(s: string)
    requires Trimmed(s)
    ensures TrimEnd(s) == s && TrimStart(s) == s && Trim(s) == s
  {}

  /** Trailing white space does not matter to a trimmed string. */
  lemma {:induction false} TrimEndPadding(s: string, pad: string)
    requires AllSpace(pad)
    ensures TrimEnd(s + pad) == TrimEnd(s)
    decreases |pad|
  {
    if pad == "" {
      assert s + pad == s;
    } else {
      assert (s + pad)[..|s + pad| - 1] == s + pad[..|pad| - 1];
      TrimEndPadding(s, pad[..|pad| - 1]);
    }
  }

  lemma {:induction false} TrimStartBefore(s: string, pad: string)
    requires !AllSpace(s)
    ensures TrimStart(s + pad) == TrimStart(s) + pad
  {
    if IsSpace(s[0]) {
      assert (s + pad)[1..] == s[1..] + pad;
      TrimStartBefore(s[1..], pad);
    }
  }

  lemma TrimPadding(s: string, pad: string)
    requires AllSpace(pad)
    ensures Trim(s + pad) == Trim(s)
  {
    if AllSpace(s) {
      assert AllSpace(s + pad);
    } else {
      TrimStartBefore(s, pad);
      TrimEndPadding(TrimStart(s), pad);
    }
  }

  /** White space around a trimmed string is what trimming takes away. */
  lemma TrimAround(lead: string, core: string, tail: string)
    requires AllSpace(lead) && AllSpace(tail) && Trimmed(core)
    ensures Trim(lead + core + tail) == core
  {
    if core == "" {
      assert AllSpace(lead + core + tail);
      TrimFacts(lead + core + tail);
    } else {
      TrimStartPadding(lead, core + tail);
      assert lead + core + tail == lead + (core + tail);
      assert (core + tail)[0] == core[0];
      TrimEndPadding(core, tail);
      TrimTrimmed(core);
    }
  }

  lemma TrimTakes(s: string) returns (lead: string, tail: string)
    ensures s == lead + Trim(s) + tail && AllSpace(lead) && AllSpace(tail)
  {
    hide TrimStart, TrimEnd, AllSpace, IsSpace;
    var t := TrimStart(s);
    var r := TrimEnd(t);
    lead, tail := s[..|s| - |t|], t[|r|..];
    assert t == t[..|r|] + tail;
    Apart(s, |s| - |t|, r, tail);
  }

  lemma Apart(s: string, n: nat, r: string, tail: string)
    requires n <= |s| && s[n..] == r + tail
    ensures s == s[..n] + r + tail
  {
    assert s == s[..n] + s[n..];
    assert s[..n] + (r + tail) == s[..n] + r + tail;
  }

  lemma {:induction false} TrimStartPadding(lead: string, s: string)
    requires AllSpace(lead) && s != "" && !IsSpace(s[0])
    ensures TrimStart(lead + s) == s
  {
    if lead == "" {
      assert lead + s == s;
    } else {
      assert (lead + s)[1..] == lead[1..] + s;
      TrimStartPadding(lead[1..], s);
    }
  }

  /** The parts of a string between the separators: always at least one. */
  function Split(s: string, sep: char): (r: seq<string>)
    ensures r != []
    ensures forall i :: 0 <= i < |r| ==> sep !in r[i]
  {
    if s == "" then [""]
    else
      var rest := Split(s[1..], sep);
      if s[0] == sep then [""] + rest
      else [[s[0]] + rest[0]] + rest[1..]
  }

  function Join(parts: seq<string>, sep: char): string
    requires parts != []
  {
    if |parts| == 1 then parts[0] else parts[0] + [sep] + Join(parts[1..], sep)
  }

  lemma {:induction false} JoinSplit(s: string, sep: char)
    ensures Join(Split(s, sep), sep) == s
  {
    if s != "" {
      JoinSplit(s[1..], sep);
      var rest := Split(s[1..], sep);
      if s[0] == sep {
        assert ([""] + rest)[1..] == rest;
      } else if |rest| > 1 {
        var all := [[s[0]] + rest[0]] + rest[1..];
        assert all[1..] == rest[1..];
        assert Join(all, sep) == [s[0]] + Join(rest, sep);
      }
    }
  }

  /** Splitting at a separator that is known to stand behind a separator-free part. */
  lemma {:induction false} SplitHead(head: string, tail: string, sep: char)
    requires sep !in head
    ensures Split(head + [sep] + tail, sep) == [head] + Split(tail, sep)
  {
    var s := head + [sep] + tail;
    if head == "" {
      assert s[1..] == tail;
    } else {
      SplitHead(head[1..], tail, sep);
      assert s[1..] == head[1..] + [sep] + tail;
      assert [head[0]] + head[1..] == head;
    }
  }

  lemma {:induction false} SplitNone(s: string, sep: char)
    requires sep !in s
    ensures Split(s, sep) == [s]
  {
    if s != "" {
      SplitNone(s[1..], sep);
      assert [s[0]] + s[1..] == s;
    }
  }

  lemma {:induction false} SplitJoin(parts: seq<string>, sep: char)
    requires parts != []
    requires forall i :: 0 <= i < |parts| ==> sep !in parts[i]
    ensures Split(Join(parts, sep), sep) == parts
  {
    if |parts| == 1 {
      SplitNone(parts[0], sep);
    } else {
      SplitJoin(parts[1..], sep);
      SplitHead(parts[0], Join(parts[1..], sep), sep);
    }
  }

  /** Splitting at a separator that is known to be one. */
  lemma {:induction false} SplitConcat(a: string, b: string, sep: char)
    ensures Split(a + [sep] + b, sep) == Split(a, sep) + Split(b, sep)
  {
    hide Split;
    if a == "" {
      assert a + [sep] + b == [sep] + b;
      SplitStep(sep, b, sep);
      SplitNone("", sep);
    } else {
      SplitConcat(a[1..], b, sep);
      assert a + [sep] + b == [a[0]] + (a[1..] + [sep] + b) && a == [a[0]] + a[1..];
      SplitStep(a[0], a[1..] + [sep] + b, sep);
      SplitStep(a[0], a[1..], sep);
    }
  }

  lemma SplitStep(c: char, s: string, sep: char)
    ensures var rest := Split(s, sep);
            Split([c] + s, sep) == if c == sep then [""] + rest else [[c] + rest[0]] + rest[1..]
  {
    assert ([c] + s)[1..] == s;
  }

  lemma {:induction false} JoinConcat(a: seq<string>, b: seq<string>, sep: char)
    requires a != [] && b != []
    ensures Join(a + b, sep) == Join(a, sep) + [sep] + Join(b, sep)
  {
    assert (a + b)[1..] == a[1..] + b;
    if |a| == 1 {
      assert a[1..] + b == b;
    } else {
      JoinConcat(a[1..], b, sep);
      var x, y, z := a[0], Join(a[1..], sep), Join(b, sep);
      assert x + [sep] + (y + [sep] + z) == x + [sep] + y + [sep] + z;
    }
  }

  function LowerChar(c: char): char {
    if 'A' <= c <= 'Z' then (c as int + 32) as char else c
  }

  /** `to_ascii_lowercase`. */
  function Lower(s: string): (r: string)
    ensures |r| == |s| && forall k :: 0 <= k < |s| ==> r[k] == LowerChar(s[k])
  {
    seq(|s|, i requires 0 <= i < |s| => LowerChar(s[i]))
  }

  const UPPER := "ABCDEFGHIJKLMNOPQRSTUVWXYZ"
  const LOWER := "abcdefghijklmnopqrstuvwxyz"

  /** The letters of ASCII get their small form, and nothing else changes. */
  lemma LowerIs(s: string, k: nat)
    requires k < |s|
    ensures s[k] !in UPPER ==> Lower(s)[k] == s[k]
    ensures forall i :: 0 <= i < 26 && s[k] == UPPER[i] ==> Lower(s)[k] == LOWER[i]
  {
    AlphabetIs();
    var c := s[k];
    if 'A' <= c <= 'Z' {
      assert UPPER[c as int - 'A' as int] == c;
    }
  }

  lemma AlphabetIs()
    ensures |UPPER| == 26 && |LOWER| == 26
    ensures forall i :: 0 <= i < 26 ==> UPPER[i] == ('A' as int + i) as char && LOWER[i] == ('a' as int + i) as char
  {}

  /** A natural number as `Display` writes it. */
  function Decimal(n: nat): (s: string)
    ensures s != ""
  {
    if n < 10 then [Digit(n)] else Decimal(n / 10) + [Digit(n % 10)]
  }

  function Digit(n: nat): char
    requires n < 10
  {
    (n + '0' as int) as char
  }

  lemma {:induction false} DecimalDigits(n: nat)
    ensures forall k :: 0 <= k < |Decimal(n)| ==> '0' <= Decimal(n)[k] <= '9'
  {
    if n >= 10 {
      DecimalDigits(n / 10);
    }
  }
}
