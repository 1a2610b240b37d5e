/** Dropping the legacy key bindings, line by line, from a Ghostty configuration. */
module LegacyGhostty {

  import opened Sequences
  import opened Text

  /** The bindings earlier releases installed, in lower case: they are compared without regard to
      ASCII case. */
  const CHORDS: seq<string> := [
    "ctrl+semicolon=text:\\x1b[5001~",
    "ctrl+comma=text:\\x1b[5009~",
    "ctrl+shift+semicolon=text:\\x1b[5010~",
    "ctrl+equal=text:\\x1b[5002~",
    "ctrl+shift+equal=text:\\x1b[5007~",
    "ctrl+minus=text:\\x1b[5003~",
    "ctrl+zero=text:\\x1b[5004~",
    "shift+enter=text:\\x1b[5008~",
    "unconsumed:ctrl+semicolon=" + "activate_key_table:tweb",
    "tweb/unconsumed:ctrl+semicolon=" + "deactivate_key_table"
  ]

  function Binding(i: nat): string
    requires i < |CHORDS|
  {
    "keybind = " + CHORDS[i]
  }

  predicate IsLegacyBinding(line: string) {
    exists i :: 0 <= i < |CHORDS| && Lower(Trim(line)) == Binding(i)
  }

  /** The first line with its line break, and what follows: `split_inclusive`. */
  function LineEnd(text: string): (r: nat)
    requires text != ""
    ensures 0 < r <= |text|
    ensures '\n' !in text[..r - 1] && (r == |text| || text[r - 1] == '\n')
  {
    if text[0] == '\n' || |text| == 1 then 1
    else
      var rest := LineEnd(text[1..]);
      assert text[..rest] == [text[0]] + text[1..][..rest - 1];
      1 + rest
  }

  function Migrate(content: string): string {
    if content == "" then ""
    else
      var n := LineEnd(content);
      (if IsLegacyBinding(content[..n]) then "" else content[..n]) + Migrate(content[n..])
  }

  /** Characters `i` to `j` of the text are one of its lines, line break included. */
  ghost predicate IsLine(text: string, i: int, j: int) {
    && 0 <= i < j <= |text|
    && (i == 0 || text[i - 1] == '\n')
    && (j == |text| || text[j - 1] == '\n')
    && forall k :: i <= k < j - 1 ==> text[k] != '\n'
  }

  ghost predicate Clean(text: string) {
    forall i, j :: IsLine(text, i, j) ==> !IsLegacyBinding(text[i..j])
  }

  /** The lines of a text are its first line and the lines of the rest. */
  lemma LinesSplit(text: string, n: nat, i: int, j: int)
    requires text != "" && n == LineEnd(text)
    ensures IsLine(text, i, j) <==> ((i == 0 && j == n) || (i >= n && IsLine(text[n..], i - n, j - n)))
  {
    assert forall k :: 0 <= k < n - 1 ==> text[k] == text[..n - 1][k];
    assert forall k :: n <= k < |text| ==> text[k] == text[n..][k - n];
    assert n < |text| ==> text[n - 1] == '\n';
  }

  lemma {:induction false} MigrateClean(content: string)
    ensures Clean(Migrate(content))
  {
    if content != "" {
      var n := LineEnd(content);
      var line, rest := content[..n], Migrate(content[n..]);
      MigrateClean(content[n..]);
      if !IsLegacyBinding(line) {
        if n == |content| {
          assert content[n..] == "";
        }
        ConsClean(line, rest);
      } else {
        assert Migrate(content) == rest;
      }
    }
  }

  /** Putting a kept line in front of clean text. */
  lemma ConsClean(line: string, rest: string)
    requires line != "" && '\n' !in line[..|line| - 1] && (line[|line| - 1] == '\n' || rest == "")
    requires !IsLegacyBinding(line) && Clean(rest)
    ensures Clean(line + rest)
  {
    hide IsLegacyBinding;
    var text := line + rest;
    LineEndOf(line, rest);
    forall i, j | IsLine(text, i, j) ensures !IsLegacyBinding(text[i..j]) {
      LinesSplit(text, |line|, i, j);
      assert text[|line|..] == rest;
      if i == 0 && j == |line| {
        assert text[i..j] == line;
      } else {
        assert text[i..j] == rest[i - |line|..j - |line|];
      }
    }
  }

  lemma {:induction false} LineEndOf(line: string, rest: string)
    requires line != "" && '\n' !in line[..|line| - 1] && (line[|line| - 1] == '\n' || rest == "")
    ensures LineEnd(line + rest) == |line|
  {
    if |line| > 1 {
      assert line[0] == line[..|line| - 1][0];
      assert (line + rest)[1..] == line[1..] + rest;
      assert line[1..][..|line| - 2] == line[..|line| - 1][1..];
      LineEndOf(line[1..], rest);
    }
  }

  /** Migration keeps a text exactly when none of its lines is a legacy binding. */
  lemma {:induction false} MigrateFixedIff(content: string)
    ensures Migrate(content) == content <==> Clean(content)
  {
    MigrateClean(content);
    if Clean(content) {
      CleanIsFixed(content);
    }
  }

  /** The first line of a clean text is kept, and the rest is clean. */
  lemma CleanSplits(content: string)
    requires content != "" && Clean(content)
    ensures var n := LineEnd(content); !IsLegacyBinding(content[..n]) && Clean(content[n..])
  {
    hide IsLegacyBinding, LineEnd;
    var n := LineEnd(content);
    LinesSplit(content, n, 0, n);
    assert content[0..n] == content[..n];
    forall i, j | IsLine(content[n..], i, j) ensures !IsLegacyBinding(content[n..][i..j]) {
      LinesSplit(content, n, i + n, j + n);
      assert content[i + n..j + n] == content[n..][i..j];
    }
  }

  lemma {:induction false} CleanIsFixed(content: string)
    requires Clean(content)
    ensures Migrate(content) == content
    decreases |content|
  {
    hide IsLegacyBinding, Clean, Migrate;
    if content == "" {
      MigrateNothing();
    } else {
      var n := LineEnd(content);
      CleanSplits(content);
      CleanIsFixed(content[n..]);
      MigrateFirst(content);
      assert content[..n] + content[n..] == content;
    }
  }

  lemma MigrateIdempotent(content: string)
    ensures Migrate(Migrate(content)) == Migrate(content)
  {
    MigrateClean(content);
    CleanIsFixed(Migrate(content));
  }

  function Kept(line: string): string {
    if IsLegacyBinding(line) then "" else line
  }

  lemma MigrateNothing()
    ensures Migrate("") == ""
  {}

  lemma MigrateFirst(content: string)
    requires content != ""
    ensures var n := LineEnd(content); Migrate(content) == Kept(content[..n]) + Migrate(content[n..])
  {}

  /** Filtering works part by part when the first part ends a line. */
  lemma {:induction false} MigrateConcat(a: string, b: string)
    requires a != "" ==> a[|a| - 1] == '\n'
    ensures Migrate(a + b) == Migrate(a) + Migrate(b)
    decreases |a|
  {
    hide IsLegacyBinding, Migrate;
    if a == "" {
      assert a + b == b;
      MigrateNothing();
      assert "" + Migrate(b) == Migrate(b);
    } else {
      var n := LineEnd(a);
      LineEndWithin(a, b);
      MigrateFirst(a);
      MigrateFirst(a + b);
      assert (a + b)[..n] == a[..n] && (a + b)[n..] == a[n..] + b;
      assert a[n..] != "" ==> a[n..][|a[n..]| - 1] == a[|a| - 1];
      MigrateConcat(a[n..], b);
      var kept := Kept(a[..n]);
      assert kept + (Migrate(a[n..]) + Migrate(b)) == kept + Migrate(a[n..]) + Migrate(b);
    }
  }

  /** The line is one of the bindings, in whatever case and whatever white space around it. */
  ghost predicate Spells(line: string, lead: string, core: string, tail: string, i: nat) {
    i < |CHORDS| && line == lead + core + tail && AllSpace(lead) && AllSpace(tail) && Lower(core) == "keybind = " + CHORDS[i]
  }

  lemma IsLegacyIff(line: string)
    ensures IsLegacyBinding(line) <==> exists lead, core, tail, i :: Spells(line, lead, core, tail, i)
  {
    hide Trim, TrimStart, TrimEnd, CHORDS;
    if IsLegacyBinding(line) {
      var i :| 0 <= i < |CHORDS| && Lower(Trim(line)) == Binding(i);
      var lead, tail := TrimTakes(line);
      assert Spells(line, lead, Trim(line), tail, i);
    }
    if lead, core, tail, i :| Spells(line, lead, core, tail, i) {
      BindingEnds(i);
      assert Trimmed(core) by {
        assert Lower(core)[0] == LowerChar(core[0]) && Lower(core)[|core| - 1] == LowerChar(core[|core| - 1]);
      }
      TrimAround(lead, core, tail);
      assert Lower(Trim(line)) == Binding(i);
    }
  }

  lemma BindingEnds(i: nat)
    requires i < |CHORDS|
    ensures var b := "keybind = " + CHORDS[i];
            b[0] == 'k' && (b[|b| - 1] == '~' || b[|b| - 1] == 'b' || b[|b| - 1] == 'e')
  {
    var b := "keybind = " + CHORDS[i];
    assert b[|b| - 1] == CHORDS[i][|CHORDS[i]| - 1];
  }

  /** What filtering comes to, line by line: a line that is a legacy binding goes, any other stays as it
      is, and so on behind it. */
  lemma MigrateLineByLine(line: string, rest: string)
    requires line != "" && '\n' !in line[..|line| - 1] && (line[|line| - 1] == '\n' || rest == "")
    ensures (exists lead, core, tail, i :: Spells(line, lead, core, tail, i)) ==> Migrate(line + rest) == Migrate(rest)
    ensures !(exists lead, core, tail, i :: Spells(line, lead, core, tail, i)) ==> Migrate(line + rest) == line + Migrate(rest)
    ensures Migrate("") == ""
  {
    hide Spells, IsLegacyBinding, Migrate;
    IsLegacyIff(line);
    LineEndOf(line, rest);
    MigrateFirst(line + rest);
    MigrateNothing();
    assert (line + rest)[..|line|] == line && (line + rest)[|line|..] == rest;
    assert "" + Migrate(rest) == Migrate(rest);
  }

  lemma LineEndWithin(a: string, b: string)
    requires a != "" && a[|a| - 1] == '\n'
    ensures LineEnd(a + b) == LineEnd(a)
  {
    var n := LineEnd(a);
    LineEndOf(a[..n], a[n..] + b);
    assert a[..n] + (a[n..] + b) == a + b;
    assert a[..n][..n - 1] == a[..n - 1];
  }

  lemma {:induction false} MigrateShrinks(content: string)
    ensures |Migrate(content)| <= |content|
  {
    hide IsLegacyBinding;
    if content != "" {
      MigrateShrinks(content[LineEnd(content)..]);
    }
  }

  /** If a text that is left as it is consists of two parts, the first ending a line, so are these. */
  lemma FixedParts(a: string, b: string)
    requires a != "" && a[|a| - 1] == '\n' && Clean(a + b)
    ensures Migrate(a) == a && Migrate(b) == b
  {
    CleanIsFixed(a + b);
    MigrateConcat(a, b);
    MigrateShrinks(a);
    MigrateShrinks(b);
    assert |Migrate(a)| + |Migrate(b)| == |a| + |b|;
    assert (a + b)[..|a|] == a && (a + b)[|a|..] == b;
  }

  /** A one-line pattern stands inside the first line or inside the rest. */
  lemma OnOneLine(text: string, n: nat, m: string, k: int)
    requires n <= |text| && (n == |text| || (n > 0 && text[n - 1] == '\n'))
    requires m != "" && (forall i :: 0 <= i < |m| ==> m[i] != '\n') && At(text, m, k)
    ensures (k + |m| <= n && At(text[..n], m, k)) || (n <= k && At(text[n..], m, k - n))
  {
    assert text == text[..n] + text[n..];
    if k + |m| <= n {
      AtLeft(text[..n], text[n..], m, k);
    } else if n <= k {
      AtRight(text[..n], text[n..], m, k);
    } else {
      AtIndex(text, m, k, n - 1);
    }
  }

  /** Filtering makes no occurrence of a one-line pattern. */
  lemma {:induction false} MigrateLacks(content: string, m: string)
    requires m != "" && forall i :: 0 <= i < |m| ==> m[i] != '\n'
    requires forall k :: !At(content, m, k)
    ensures forall k :: !At(Migrate(content), m, k)
  {
    hide IsLegacyBinding;
    if content != "" {
      var n := LineEnd(content);
      var line, rest := content[..n], content[n..];
      assert content == line + rest;
      forall k ensures !At(line, m, k) {
        if k + |m| <= n { AtLeft(line, rest, m, k); }
      }
      forall k ensures !At(rest, m, k) {
        if 0 <= k { AtRight(line, rest, m, n + k); }
      }
      MigrateLacks(rest, m);
      var kept := Migrate(rest);
      assert n == |content| ==> rest == "";
      forall k ensures !At(line + kept, m, k) {
        if At(line + kept, m, k) {
          assert (line + kept)[..n] == line && (line + kept)[n..] == kept;
          OnOneLine(line + kept, n, m, k);
        }
      }
      assert "" + kept == kept;
    }
  }

  /** No line that holds the pattern is a binding. */
  ghost predicate NotInBindings(content: string, m: string) {
    forall i, j, q :: IsLine(content, i, j) && At(content[i..j], m, q) ==> !IsLegacyBinding(content[i..j])
  }

  lemma RestHolds(content: string, m: string)
    requires content != "" && NotInBindings(content, m)
    ensures NotInBindings(content[LineEnd(content)..], m)
  {
    hide IsLegacyBinding;
    var n := LineEnd(content);
    var rest := content[n..];
    forall i, j, q | IsLine(rest, i, j) && At(rest[i..j], m, q) ensures !IsLegacyBinding(rest[i..j]) {
      LinesSplit(content, n, i + n, j + n);
      assert content[i + n..j + n] == rest[i..j];
    }
  }

  /** Nor does it lose one that no binding holds. */
  lemma {:induction false} MigrateKeeps(content: string, m: string, k: int)
    requires m != "" && (forall i :: 0 <= i < |m| ==> m[i] != '\n') && At(content, m, k)
    requires NotInBindings(content, m)
    ensures exists k' :: At(Migrate(content), m, k')
  {
    hide IsLegacyBinding, Migrate, LineEnd;
    if content != "" {
      var n := LineEnd(content);
      var line, rest := content[..n], content[n..];
      OnOneLine(content, n, m, k);
      LinesSplit(content, n, 0, n);
      MigrateFirst(content);
      assert content[0..n] == line;
      if At(line, m, k) {
        assert At(content[0..n], m, k) && !IsLegacyBinding(line);
        AtLeft(line, Migrate(rest), m, k);
        assert At(Migrate(content), m, k);
      } else {
        RestHolds(content, m);
        MigrateKeeps(rest, m, k - n);
        var k' :| At(Migrate(rest), m, k');
        var kept := Kept(line);
        AtRight(kept, Migrate(rest), m, |kept| + k');
        assert At(kept + Migrate(rest), m, |kept| + k');
      }
    }
  }
}
