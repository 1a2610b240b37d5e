/**
 The text step of `tweb doctor --fix` on a user's configuration: migrate what earlier releases left
 behind, then put the managed block in. Running it again must change nothing.
 */
module Doctor {

  import opened Octets
  import opened Wrappers
  import opened Sequences
  import opened Text
  import opened ManagedBlock
  import LegacyTmux
  import LegacyGhostty

  const GHOSTTY_BEGIN := "# >>> tweb doctor managed passthrough >>>"
  const GHOSTTY_END := "# <<< tweb doctor managed passthrough <<<"
  const TMUX_BEGIN := "# >>> tweb doctor managed" + " terminal options >>>"
  const TMUX_END := "# <<< tweb doctor managed" + " terminal options <<<"

  /** The block's own text is no legacy text. */
  ghost predicate TmuxBlock(block: string, begin: string, end: string, legacyBegin: string, legacyEnd: string) {
    && Bracketed(TrimEnd(block), begin, end)
    && Lacks(TrimEnd(block), legacyBegin) && Lacks(TrimEnd(block), legacyEnd)
  }

  ghost predicate GhosttyBlock(block: string, begin: string, end: string) {
    && Bracketed(TrimEnd(block), begin, end)
    && LegacyGhostty.Clean(TrimEnd(block))
  }

  /** The legacy markers are single lines that cannot run over the edges of the block. */
  ghost predicate LegacyPair(legacyBegin: string, legacyEnd: string, end: string) {
    && Unsplit(legacyBegin, end) && Unsplit(legacyEnd, end)
    && |legacyBegin| > 1 && |legacyEnd| > 1
    && OneLine(legacyBegin) && OneLine(legacyEnd)
  }

  /** Where a pattern of the installed text stands in the text the block was put into. */
  lemma LegacyWasThere(content: string, begin: string, end: string, block: string, m: string, k: int)
    requires Pair(begin, end) && Bracketed(TrimEnd(block), begin, end)
    requires Upsert(content, begin, end, block).Success?
    requires Unsplit(m, end) && |m| > 1 && OneLine(m) && Lacks(TrimEnd(block), m)
    requires At(Upsert(content, begin, end, block).value, m, k)
    ensures var p, r := Before(content, begin), TrimEnd(block);
            if k < |p| then At(content, m, k)
            else Find(content, begin, 0).Some? && |p| + |r| <= k &&
                 At(content, m, k - |p| - |r| + |content| - |After(content, begin, end)|)
  {
    hide TrimEnd, Trim, Upsert, Unsplit, OneLine, NoLeadInside, Before, After, Installed, Find;
    var p, r, s := Before(content, begin), TrimEnd(block), After(content, begin, end);
    UpsertInstalls(content, begin, end, block);
    BracketedLead(r, begin, end);
    Located(p, r, s, end, m, k);
    AfterIsEnd(content, begin, end, block);
    if Find(content, begin, 0).Some? {
      InsideCuts(content, p, s, m, if k < |p| then k else k - |p| - |r|, k < |p|);
    } else if k < |p| {
      InPaddedText(content, TrimEnd(content), "\n\n", m, k);
    } else {
      ShortLacks(m, k - |p| - |r|);
    }
  }

  /** An occurrence in the text before or behind a replaced block stands in the whole text. */
  lemma InsideCuts(content: string, p: string, s: string, m: string, k: int, front: bool)
    requires |p| + |s| <= |content| && content[0..|p|] == p && content[|content| - |s|..|content|] == s
    requires if front then At(p, m, k) else At(s, m, k)
    ensures if front then At(content, m, k) else At(content, m, k + |content| - |s|)
  {
    if front {
      AtCut(content, 0, |p|, m, k);
    } else {
      AtCut(content, |content| - |s|, |content|, m, k);
    }
  }

  lemma ShortLacks(m: string, k: int)
    requires |m| > 1
    ensures !At("\n", m, k)
  {}

  lemma AfterIsEnd(content: string, begin: string, end: string, block: string)
    requires begin != "" && end != ""
    requires Upsert(content, begin, end, block).Success?
    ensures Find(content, begin, 0).Some? ==>
              var p, s := Before(content, begin), After(content, begin, end);
              |p| + |s| <= |content| &&
              content[0..|p|] == p && content[|content| - |s|..|content|] == s
    ensures Find(content, begin, 0).None? ==>
              After(content, begin, end) == "\n" &&
              (Before(content, begin) == "" || Before(content, begin) == TrimEnd(content) + "\n\n")
  {
    hide Count, TrimEnd, Trim, At;
    var f := Find(content, begin, 0);
    if f.Some? {
      CutsContent(content, begin, end, f.value);
    }
  }

  lemma CutsContent(content: string, begin: string, end: string, start: nat)
    requires Find(content, begin, 0) == Some(start) && Find(content, end, start).Some?
    ensures var p, s := Before(content, begin), After(content, begin, end);
            |p| + |s| <= |content| && content[0..|p|] == p && content[|content| - |s|..|content|] == s
  {
    var last := Find(content, end, start).value;
    assert start <= last && last + |end| <= |content|;
  }

  /** A one-line pattern in a text with line breaks added stands in the text. */
  lemma InPaddedText(y: string, t: string, breaks: string, m: string, k: int)
    requires m != "" && OneLine(m) && t <= y && At(t + breaks, m, k)
    requires forall q :: 0 <= q < |breaks| ==> breaks[q] == '\n'
    ensures At(y, m, k)
  {
    AtIndex(t + breaks, m, k, k + |m| - 1);
    AtLeft(t, breaks, m, k);
    assert y[0..|t|] == t;
    AtCut(y, 0, |t|, m, k);
  }

  /** Putting the block in makes no legacy block that was not there. */
  lemma InstallKeepsMigratedTmux(content: string, begin: string, end: string, block: string, legacyBegin: string, legacyEnd: string)
    requires Pair(begin, end) && TmuxBlock(block, begin, end, legacyBegin, legacyEnd)
    requires LegacyPair(legacyBegin, legacyEnd, end)
    requires Upsert(content, begin, end, block).Success?
    requires !LegacyTmux.HasBlock(content, legacyBegin, legacyEnd)
    ensures !LegacyTmux.HasBlock(Upsert(content, begin, end, block).value, legacyBegin, legacyEnd)
  {
    hide Upsert, Bracketed, Unsplit, Before, After, Managed;
    var z := Upsert(content, begin, end, block).value;
    forall i, j | i <= j && At(z, legacyBegin, i) ensures !At(z, legacyEnd, j) {
      if At(z, legacyEnd, j) {
        LegacyWasThere(content, begin, end, block, legacyBegin, i);
        LegacyWasThere(content, begin, end, block, legacyEnd, j);
        AfterIsEnd(content, begin, end, block);
      }
    }
  }

  /** The install's text step on a tmux configuration. */
  ghost function InstallTmux(content: string, begin: string, end: string, block: string, legacyBegin: string, legacyEnd: string)
    : Result<string, MarkerError>
    requires begin != "" && end != "" && legacyEnd != ""
  {
    Upsert(LegacyTmux.Migrate(content, legacyBegin, legacyEnd), begin, end, block)
  }

  ghost function InstallGhostty(content: string, begin: string, end: string, block: string): Result<string, MarkerError>
    requires begin != "" && end != ""
  {
    Upsert(LegacyGhostty.Migrate(content), begin, end, block)
  }

  /** A second run of the tmux install finds nothing to do, and the block reads back as written. */
  lemma InstallTmuxFixpoint(content: string, begin: string, end: string, block: string, legacyBegin: string, legacyEnd: string)
    requires Pair(begin, end) && TmuxBlock(block, begin, end, legacyBegin, legacyEnd)
    requires LegacyPair(legacyBegin, legacyEnd, end)
    requires InstallTmux(content, begin, end, block, legacyBegin, legacyEnd).Success?
    ensures var z := InstallTmux(content, begin, end, block, legacyBegin, legacyEnd).value;
            InstallTmux(z, begin, end, block, legacyBegin, legacyEnd) == Success(z) &&
            Managed(z, begin, end) == Some(TrimEnd(block))
  {
    hide Upsert, TrimEnd, Managed, LegacyTmux.Migrate, LegacyTmux.HasBlock, Installed, Before, After;
    var y := LegacyTmux.Migrate(content, legacyBegin, legacyEnd);
    LegacyTmux.MigrateLeaves(content, legacyBegin, legacyEnd);
    UpsertInstalls(y, begin, end, block);
    InstallKeepsMigratedTmux(y, begin, end, block, legacyBegin, legacyEnd);
    LegacyTmux.MigrateChangesIff(Upsert(y, begin, end, block).value, legacyBegin, legacyEnd);
    InstalledIsFixed(Before(y, begin), TrimEnd(block), After(y, begin, end), begin, end, block);
  }

  /** A line with a `#` in it is no legacy binding. */
  lemma NotBindingIfLead(line: string, k: nat)
    requires k < |line| && line[k] == LEAD
    ensures !LegacyGhostty.IsLegacyBinding(line)
  {
    var t := Trim(line);
    var q := TrimKeeps(line, k);
    assert Lower(t)[q] == LEAD;
    BindingsLackLead();
  }

  lemma TrimKeeps(s: string, k: nat) returns (q: nat)
    requires k < |s| && !IsSpace(s[k])
    ensures q < |Trim(s)| && Trim(s)[q] == s[k]
  {
    hide TrimStart, TrimEnd;
    var t := TrimStart(s);
    var cut := |s| - |t|;
    assert forall i :: 0 <= i < cut ==> s[i] == s[..cut][i];
    q := k - cut;
    var r := TrimEnd(t);
    assert forall i :: |r| <= i < |t| ==> t[i] == t[|r|..][i - |r|];
  }

  ghost predicate LacksLead(s: string) {
    forall k :: 0 <= k < |s| ==> s[k] != LEAD
  }

  lemma BindingsLackLead()
    ensures forall i :: 0 <= i < |LegacyGhostty.CHORDS| ==> LacksLead(LegacyGhostty.Binding(i))
  {
    forall i | 0 <= i < |LegacyGhostty.CHORDS| ensures LacksLead(LegacyGhostty.Binding(i)) {
      BindingLacksLead(i);
    }
  }

  lemma BindingTail(i: nat)
    requires i < |LegacyGhostty.CHORDS|
    ensures LacksLead(LegacyGhostty.CHORDS[i])
  {
    if i < 4 {
      BindingTailFirst(i);
    } else if i < 8 {
      BindingTailMiddle(i);
    } else {
      BindingTailLast(i);
    }
  }

  lemma BindingTailFirst(i: nat)
    requires i < 4
    ensures LacksLead(LegacyGhostty.CHORDS[i])
  {
    if i == 0 { assert LacksLead(LegacyGhostty.CHORDS[0]); }
    else if i == 1 { assert LacksLead(LegacyGhostty.CHORDS[1]); }
    else if i == 2 { assert LacksLead(LegacyGhostty.CHORDS[2]); }
    else { assert LacksLead(LegacyGhostty.CHORDS[3]); }
  }

  lemma BindingTailMiddle(i: nat)
    requires 4 <= i < 8
    ensures LacksLead(LegacyGhostty.CHORDS[i])
  {
    if i == 4 { assert LacksLead(LegacyGhostty.CHORDS[4]); }
    else if i == 5 { assert LacksLead(LegacyGhostty.CHORDS[5]); }
    else if i == 6 { assert LacksLead(LegacyGhostty.CHORDS[6]); }
    else { assert LacksLead(LegacyGhostty.CHORDS[7]); }
  }

  lemma BindingTailLast(i: nat)
    requires 8 <= i < |LegacyGhostty.CHORDS|
    ensures LacksLead(LegacyGhostty.CHORDS[i])
  {
    if i == 8 { assert LacksLead(LegacyGhostty.CHORDS[8]); }
    else { assert LacksLead(LegacyGhostty.CHORDS[9]); }
  }

  lemma BindingLacksLead(i: nat)
    requires i < |LegacyGhostty.CHORDS|
    ensures LacksLead(LegacyGhostty.Binding(i))
  {
    BindingTail(i);
    assert LacksLead("keybind = ");
  }

  /** A line before an appended block is, white space aside, a line of the user's text. */
  lemma LineBeforeAppended(y: string, z: string, i: nat, j: nat)
    requires LegacyGhostty.Clean(y) && Trim(y) != ""
    requires TrimEnd(y) + "\n\n" <= z && j <= |TrimEnd(y)| + 2 && j < |z|
    requires LegacyGhostty.IsLine(z, i, j)
    ensures !LegacyGhostty.IsLegacyBinding(z[i..j])
  {
    hide TrimEnd, Trim, LegacyGhostty.IsLegacyBinding;
    var t := TrimEnd(y);
    assert forall k :: 0 <= k < |t| ==> z[k] == (t + "\n\n")[k] == t[k] == y[k];
    assert z[|t|] == (t + "\n\n")[|t|] && z[|t| + 1] == (t + "\n\n")[|t| + 1];
    if j <= |t| {
      assert LegacyGhostty.IsLine(y, i, j);
      assert z[i..j] == y[i..j];
    } else if i > |t| {
      assert z[i..j] == "\n";
      BlankLine();
    } else {
      assert y[|t|..] == if t == "" then y else y[|t|..];
      TrimFacts(y);
      assert z[i..j] == t[i..] + "\n";
      LastLine(y, i);
    }
  }

  /** The last line of the trimmed text, with a line break, is judged like that line of the text. */
  lemma LastLine(y: string, i: nat)
    requires LegacyGhostty.Clean(y) && i < |TrimEnd(y)|
    requires i == 0 || y[i - 1] == '\n'
    requires forall k :: i <= k < |TrimEnd(y)| ==> y[k] != '\n'
    ensures !LegacyGhostty.IsLegacyBinding(TrimEnd(y)[i..] + "\n")
  {
    hide TrimEnd, LegacyGhostty.IsLegacyBinding, LegacyGhostty.LineEnd;
    var t := TrimEnd(y);
    var w := y[|t|..];
    assert y == t + w;
    var n := if w == "" then 0 else LegacyGhostty.LineEnd(w);
    LineThrough(y, t, w, i, n);
    assert y[i..|t| + n] == t[i..] + w[..n];
    SameBinding(t[i..], w[..n], "\n");
  }

  /** A line that begins in one part and ends in the next. */
  lemma LineThrough(y: string, t: string, w: string, i: nat, n: nat)
    requires y == t + w && i < |t| && (i == 0 || y[i - 1] == '\n') && (forall k :: i <= k < |t| ==> y[k] != '\n')
    requires if w == "" then n == 0 else 0 < n <= |w| && '\n' !in w[..n - 1] && (n == |w| || w[n - 1] == '\n')
    ensures LegacyGhostty.IsLine(y, i, |t| + n)
  {
    assert forall k :: 0 <= k < n - 1 ==> w[k] == w[..n - 1][k];
    assert forall k :: 0 <= k < |w| ==> y[|t| + k] == w[k];
  }

  lemma BlankLine()
    ensures !LegacyGhostty.IsLegacyBinding("\n")
  {
    TrimFacts("\n");
  }

  lemma SameBinding(line: string, a: string, b: string)
    requires AllSpace(a) && AllSpace(b)
    ensures LegacyGhostty.IsLegacyBinding(line + a) == LegacyGhostty.IsLegacyBinding(line + b)
  {
    TrimPadding(line, a);
    TrimPadding(line, b);
  }

  /** Putting the block in makes no legacy binding of any line. */
  lemma InstallKeepsClean(y: string, begin: string, end: string, block: string)
    requires Pair(begin, end) && GhosttyBlock(block, begin, end)
    requires Upsert(y, begin, end, block).Success?
    requires LegacyGhostty.Clean(y)
    ensures LegacyGhostty.Clean(Upsert(y, begin, end, block).value)
  {
    var z := Upsert(y, begin, end, block).value;
    forall i, j | LegacyGhostty.IsLine(z, i, j) ensures !LegacyGhostty.IsLegacyBinding(z[i..j]) {
      InstalledLine(y, begin, end, block, i, j);
    }
  }

  lemma LineBeforeBlock(y: string, begin: string, end: string, block: string, i: nat, j: nat)
    requires Pair(begin, end) && Bracketed(TrimEnd(block), begin, end)
    requires Upsert(y, begin, end, block).Success? && LegacyGhostty.Clean(y)
    requires LegacyGhostty.IsLine(Upsert(y, begin, end, block).value, i, j) && j <= |Before(y, begin)|
    ensures !LegacyGhostty.IsLegacyBinding(Upsert(y, begin, end, block).value[i..j])
  {
    hide Upsert, TrimEnd, Trim, Before, After, NoLeadInside, LegacyGhostty.IsLegacyBinding,
         LegacyGhostty.LineEnd, LegacyGhostty.Clean;
    var p, r, s := Before(y, begin), TrimEnd(block), After(y, begin, end);
    UpsertInstalls(y, begin, end, block);
    AfterIsEnd(y, begin, end, block);
    if Find(y, begin, 0).Some? {
      assert p + r + s == p + (r + s);
      assert p == y[0..|p|] == y[..|p|];
      LineInPrefix(y, p, r + s, i, j);
    } else {
      AppendedAfterText(y, begin);
      LineBeforeAppended(y, p + r + s, i, j);
    }
  }

  lemma InstalledLine(y: string, begin: string, end: string, block: string, i: nat, j: nat)
    requires Pair(begin, end) && GhosttyBlock(block, begin, end)
    requires Upsert(y, begin, end, block).Success?
    requires LegacyGhostty.Clean(y)
    requires LegacyGhostty.IsLine(Upsert(y, begin, end, block).value, i, j)
    ensures !LegacyGhostty.IsLegacyBinding(Upsert(y, begin, end, block).value[i..j])
  {
    hide Upsert, TrimEnd, Trim, Before, After, NoLeadInside, LegacyGhostty.IsLegacyBinding,
         LegacyGhostty.LineEnd, LegacyGhostty.Clean;
    var p, r, s := Before(y, begin), TrimEnd(block), After(y, begin, end);
    if j <= |p| {
      LineBeforeBlock(y, begin, end, block, i, j);
    } else {
      UpsertInstalls(y, begin, end, block);
      AfterIsEnd(y, begin, end, block);
      BlockLine(p, r, s, begin, end, i, j);
      if i > |p| + |r| {
        assert p + r + s == (p + r) + s;
        assert s == y[|y| - |s|..|y|] == y[|y| - |s|..];
        LineInSuffix(y, p + r, s, i, j);
      }
    }
  }

  lemma LineInPrefix(y: string, p: string, rest: string, i: nat, j: nat)
    requires LegacyGhostty.Clean(y) && p <= y && rest != "" && j <= |p|
    requires LegacyGhostty.IsLine(p + rest, i, j)
    ensures !LegacyGhostty.IsLegacyBinding((p + rest)[i..j])
  {
    hide LegacyGhostty.IsLegacyBinding;
    var z := p + rest;
    assert forall k :: 0 <= k < |p| ==> z[k] == p[k] == y[k];
    assert LegacyGhostty.IsLine(y, i, j);
    assert z[i..j] == y[i..j];
  }

  lemma LineInSuffix(y: string, front: string, s: string, i: nat, j: nat)
    requires LegacyGhostty.Clean(y) && |s| <= |y| && y[|y| - |s|..] == s && |front| < i
    requires LegacyGhostty.IsLine(front + s, i, j)
    ensures !LegacyGhostty.IsLegacyBinding((front + s)[i..j])
  {
    hide LegacyGhostty.IsLegacyBinding;
    var z := front + s;
    var cut := |y| - |s|;
    var a, b := cut + (i - |front|), cut + (j - |front|);
    assert forall k :: cut <= k < |y| ==> y[k] == y[cut..][k - cut] == z[|front| + (k - cut)];
    assert LegacyGhostty.IsLine(y, a, b);
    assert z[i..j] == y[a..b];
  }

  /** A line that reaches into the block, or follows it without a break, is no legacy binding. */
  lemma BlockLine(p: string, r: string, s: string, begin: string, end: string, i: nat, j: nat)
    requires Pair(begin, end) && Bracketed(r, begin, end) && LegacyGhostty.Clean(r)
    requires LegacyGhostty.IsLine(p + r + s, i, j) && |p| < j
    ensures i <= |p| + |r| ==> !LegacyGhostty.IsLegacyBinding((p + r + s)[i..j])
  {
    hide NoLeadInside, LegacyGhostty.IsLegacyBinding;
    BracketedLead(r, begin, end);
    var z := p + r + s;
    var bottom := |p| + |r|;
    var last := bottom - |end|;
    assert forall k :: |p| <= k < bottom ==> z[k] == r[k - |p|];
    forall k | last <= k < bottom ensures z[k] == end[k - last] && z[k] != '\n' {
      AtIndex(r, end, |r| - |end|, k - |p|);
    }
    if i <= |p| < j {
      NotBindingIfLead(z[i..j], |p| - i);
    } else if i <= last < j {
      NotBindingIfLead(z[i..j], last - i);
    } else if j <= last {
      assert forall k :: 0 <= k < |r| ==> r[k] == z[k + |p|];
      assert LegacyGhostty.IsLine(r, i - |p|, j - |p|);
      assert z[i..j] == r[i - |p|..j - |p|];
    }
  }

  lemma AppendedAfterText(y: string, begin: string)
    requires Find(y, begin, 0).None? && Before(y, begin) != ""
    ensures Trim(y) != "" && Before(y, begin) == TrimEnd(y) + "\n\n"
  {}

  /** A second run of the Ghostty install finds nothing to do, and the block reads back as written. */
  lemma InstallGhosttyFixpoint(content: string, begin: string, end: string, block: string)
    requires Pair(begin, end) && GhosttyBlock(block, begin, end)
    requires InstallGhostty(content, begin, end, block).Success?
    ensures var z := InstallGhostty(content, begin, end, block).value;
            InstallGhostty(z, begin, end, block) == Success(z) &&
            Managed(z, begin, end) == Some(TrimEnd(block))
  {
    hide Upsert, TrimEnd, Managed, LegacyGhostty.Migrate, LegacyGhostty.Clean, Installed, Before, After;
    var y := LegacyGhostty.Migrate(content);
    LegacyGhostty.MigrateClean(content);
    UpsertInstalls(y, begin, end, block);
    InstallKeepsClean(y, begin, end, block);
    LegacyGhostty.MigrateFixedIff(Upsert(y, begin, end, block).value);
    InstalledIsFixed(Before(y, begin), TrimEnd(block), After(y, begin, end), begin, end, block);
  }

  /** The markers this program uses. */
  lemma ProgramMarkers()
    ensures Pair(GHOSTTY_BEGIN, GHOSTTY_END) && Pair(TMUX_BEGIN, TMUX_END)
    ensures LegacyPair(LegacyTmux.LEGACY_BEGIN, LegacyTmux.LEGACY_END, TMUX_END)
  {
    GhosttyMarkers();
    TmuxMarkers();
    LegacyMarkers();
    hide GHOSTTY_BEGIN, GHOSTTY_END;
  }

  lemma GhosttyMarkers()
    ensures Pair(GHOSTTY_BEGIN, GHOSTTY_END)
  {
    GhosttyBeginMarker();
    GhosttyEndMarker();
    hide Marker;
    assert GHOSTTY_BEGIN[2] == '>' && GHOSTTY_END[2] == '<';
  }

  lemma GhosttyBeginMarker()
    ensures Marker(GHOSTTY_BEGIN)
  {}

  lemma GhosttyEndMarker()
    ensures Marker(GHOSTTY_END)
  {}

  lemma TmuxMarkers()
    ensures Pair(TMUX_BEGIN, TMUX_END)
  {
    TmuxBeginMarker();
    TmuxEndMarker();
    hide Marker;
    assert TMUX_BEGIN[2] == '>' && TMUX_END[2] == '<';
  }

  lemma TmuxBeginMarker()
    ensures Marker(TMUX_BEGIN)
  {}

  lemma TmuxEndMarker()
    ensures Marker(TMUX_END)
  {}

  lemma LegacyMarkers()
    ensures LegacyPair(LegacyTmux.LEGACY_BEGIN, LegacyTmux.LEGACY_END, TMUX_END)
  {
    LegacyBeginMarker();
    LegacyEndMarker();
  }

  predicate Without(s: string, c: char) {
    forall k :: 0 <= k < |s| ==> s[k] != c
  }

  lemma WithoutBoth(a: string, b: string, c: char)
    requires Without(a, c) && Without(b, c)
    ensures Without(a + b, c)
  {}

  lemma LegacyBeginFront()
    ensures var m := LegacyTmux.BEGIN_FRONT;
            |m| > 2 && m[0] == LEAD && m[2] == 'T' && Without(m[1..], LEAD) && Without(m, '\n')
  {
    var m := LegacyTmux.BEGIN_FRONT;
    assert forall k :: 0 < k < |m| ==> m[k] != LEAD;
  }

  lemma LegacyBeginBack(c: char)
    requires c == LEAD || c == '\n'
    ensures Without(LegacyTmux.BEGIN_BACK, c)
  {}

  lemma LegacyBeginMarker()
    ensures var m := LegacyTmux.LEGACY_BEGIN; Unsplit(m, TMUX_END) && OneLine(m) && |m| > 1
  {
    LegacyBeginFront();
    LegacyBeginBack(LEAD);
    LegacyBeginBack('\n');
    assert TMUX_END[2] == '<' && TMUX_END != "";
    hide LegacyTmux.BEGIN_FRONT, LegacyTmux.BEGIN_BACK, TMUX_END;
    var front, back := LegacyTmux.BEGIN_FRONT, LegacyTmux.BEGIN_BACK;
    var m := front + back;
    WithoutBoth(front, back, '\n');
    WithoutBoth(front[1..], back, LEAD);
    forall k | 0 < k < |m| ensures m[k] != LEAD {
      assert m[k] == (front[1..] + back)[k - 1];
    }
    assert m[2] == front[2];
  }

  lemma LegacyEndMarker()
    ensures var m := LegacyTmux.LEGACY_END; Unsplit(m, TMUX_END) && OneLine(m) && |m| > 1
  {
    LegacyEndOneLine();
    LegacyEndLacks(LEAD);
    LegacyEndLacks('<');
    hide LegacyTmux.LEGACY_END;
    assert TMUX_END[|TMUX_END| - 1] == '<';
  }

  lemma LegacyEndOneLine()
    ensures OneLine(LegacyTmux.LEGACY_END) && |LegacyTmux.LEGACY_END| > 1
  {
    LegacyEndLacks('\n');
    LegacyEndLong();
  }

  lemma LegacyEndLong()
    ensures |LegacyTmux.LEGACY_END| > 1
  {}

  lemma LegacyEndFront(c: char)
    requires c == LEAD || c == '<' || c == '>' || c == '\n'
    ensures Without(LegacyTmux.END_FRONT, c)
  {}

  lemma LegacyEndBack(c: char)
    requires c == LEAD || c == '<' || c == '>' || c == '\n'
    ensures Without(LegacyTmux.END_BACK, c)
  {}

  lemma LegacyEndLacks(c: char)
    requires c == LEAD || c == '<' || c == '>' || c == '\n'
    ensures Without(LegacyTmux.LEGACY_END, c)
  {
    LegacyEndFront(c);
    LegacyEndBack(c);
    hide LegacyTmux.END_FRONT, LegacyTmux.END_BACK;
    WithoutBoth(LegacyTmux.END_FRONT, LegacyTmux.END_BACK, c);
  }

  /** Text between two markers that begins and ends with a line break. */
  predicate Framed(middle: string) {
    middle != "" && middle[0] == '\n' && middle[|middle| - 1] == '\n'
  }

  /** A one-line pattern in a framed text stands in one marker's line, in the other's, or between. */
  lemma FrameAt(begin: string, middle: string, end: string, m: string, k: int)
    requires Framed(middle) && OneLine(m) && m != "" && At(begin + middle + end, m, k)
    ensures || At(begin, m, k)
            || At(middle, m, k - |begin|)
            || At(end, m, k - |begin| - |middle|)
  {
    var r := begin + middle + end;
    var b, e := |begin|, |begin| + |middle|;
    assert r == begin + (middle + end) && r[b] == '\n' && r[e - 1] == '\n';
    if k + |m| <= b {
      AtLeft(begin, middle + end, m, k);
    } else if k <= b {
      AtIndex(r, m, k, b);
    } else if k + |m| <= e {
      AtRight(begin, middle + end, m, k);
      AtLeft(middle, end, m, k - b);
    } else if k < e {
      AtIndex(r, m, k, e - 1);
    } else {
      AtRight(begin + middle, end, m, k);
    }
  }

  lemma MiddleAt(begin: string, middle: string, end: string, m: string, k: int)
    requires At(middle, m, k)
    ensures At(begin + middle + end, m, |begin| + k)
  {
    AtLeft(middle, end, m, k);
    AtRight(begin, middle + end, m, |begin| + k);
    assert begin + middle + end == begin + (middle + end);
  }

  lemma MarkersAtEnds(begin: string, middle: string, end: string)
    ensures At(begin + middle + end, begin, 0) && At(begin + middle + end, end, |begin| + |middle|)
  {
    var r := begin + middle + end;
    assert r[0..|begin|] == begin && r[|begin| + |middle|..|r|] == end;
  }

  /** Neither marker stands in the other, but where they are the same. */
  lemma MarkerInMarker(a: string, b: string, k: int)
    requires Marker(a) && Marker(b) && At(a, b, k)
    ensures k == 0 && b <= a
  {
    AtIndex(a, b, k, k);
    assert a[0..|b|] == a[..|b|];
  }

  /** A framed block is bracketed by its markers if and only if they do not stand between. */
  lemma FramedIsBracketedIff(begin: string, middle: string, end: string)
    requires Pair(begin, end) && Framed(middle)
    ensures Bracketed(begin + middle + end, begin, end) <==> Lacks(middle, begin) && Lacks(middle, end)
    ensures TrimEnd(begin + middle + end) == begin + middle + end
  {
    hide TrimEnd, Marker;
    var r := begin + middle + end;
    MarkersAtEnds(begin, middle, end);
    if Lacks(middle, begin) && Lacks(middle, end) {
      forall k | At(r, begin, k) ensures k == 0 {
        MarkerOfFrame(begin, middle, end, begin, k);
      }
      forall k | At(r, end, k) ensures k == |begin| + |middle| {
        MarkerOfFrame(begin, middle, end, end, k);
      }
    }
    forall k | At(middle, begin, k) ensures At(r, begin, |begin| + k) && |begin| + k != 0 {
      MiddleAt(begin, middle, end, begin, k);
    }
    forall k | At(middle, end, k) ensures At(r, end, |begin| + k) && |begin| + k != |begin| + |middle| {
      MiddleAt(begin, middle, end, end, k);
    }
    EndsTrimmed(begin + middle, end);
  }

  lemma MarkerOfFrame(begin: string, middle: string, end: string, m: string, k: int)
    requires Pair(begin, end) && Framed(middle) && Lacks(middle, m) && (m == begin || m == end)
    requires At(begin + middle + end, m, k)
    ensures k == if m == begin then 0 else |begin| + |middle|
  {
    FrameAt(begin, middle, end, m, k);
    if At(begin, m, k) {
      MarkerInMarker(begin, m, k);
    } else {
      MarkerInMarker(end, m, k - |begin| - |middle|);
    }
  }

  lemma EndsTrimmed(front: string, end: string)
    requires Marker(end)
    ensures TrimEnd(front + end) == front + end
  {
    assert (front + end)[|front + end| - 1] == end[|end| - 1];
  }

  /** A text in which a marker stands twice is refused. */
  lemma DuplicateRefused(content: string, begin: string, end: string, block: string, m: string, i: int, j: int)
    requires Pair(begin, end) && (m == begin || m == end) && At(content, m, i) && At(content, m, j) && i != j
    ensures Upsert(content, begin, end, block) == Failure(Duplicated)
  {
    CountDecides(content, m);
  }

  /** An empty configuration gets the block and a line break. */
  lemma UpsertEmpty(begin: string, end: string, block: string)
    requires begin != "" && end != ""
    ensures Upsert("", begin, end, block) == Success(TrimEnd(block) + "\n")
  {
    hide TrimEnd;
    assert Find("", begin, 0).None? && Find("", end, 0).None?;
    TrimTrimmed("");
  }

  /** The two include blocks the program writes around a path. */
  function GhosttyIncludeBlock(path: string): string {
    GHOSTTY_BEGIN + GhosttyIncludeLine(path) + GHOSTTY_END
  }

  function GhosttyIncludeLine(path: string): string {
    "\nconfig-file = " + path + "\n"
  }

  /** Backslashes and then double quotes get a backslash. */
  function EscapedPath(path: string): string {
    if path == "" then ""
    else (if path[0] == '\\' || path[0] == '"' then ['\\', path[0]] else [path[0]]) + EscapedPath(path[1..])
  }

  function TmuxIncludeBlock(path: string): string {
    TMUX_BEGIN + TmuxIncludeLine(path) + TMUX_END
  }

  function TmuxIncludeLine(path: string): string {
    "\nsource-file -q \"" + EscapedPath(path) + "\"\n"
  }

  /** What stands under the configuration's name: nothing, text, bytes that are no text, or something
      that may not be read. */
  datatype Stored = Missing | Text(content: string) | NotText(bytes: seq<byte>) | Unreadable

  /** What the install takes for the text: nothing, where it can read none. */
  function TextOf(stored: Stored): string {
    if stored.Text? then stored.content else ""
  }

  datatype FixError = Markers(error: MarkerError) | NotInstalled

  /** The configuration file as the install leaves it, and the copy it makes before it replaces it. */
  class ConfigFile {
    var stored: Stored
    var backup: Stored

    constructor (stored: Stored)
      ensures this.stored == stored && backup == Missing
    {
      this.stored := stored;
      backup := Missing;
    }

    /** Puts the new text in place of the file, unless it is the same. `works` is whether every call
        before the replacement succeeds, and the validator accepts the text; what may not be read
        cannot be copied either. */
    method Replace(installed: Result<string, MarkerError>, works: bool) returns (r: Result<bool, FixError>)
      modifies this
      ensures installed.Failure? ==> r == Failure(Markers(installed.error)) && stored == old(stored) && backup == old(backup)
      ensures installed.Success? && installed.value == TextOf(old(stored)) ==>
                r == Success(false) && stored == old(stored) && backup == old(backup)
      ensures installed.Success? && installed.value != TextOf(old(stored)) ==>
                if works && !old(stored).Unreadable? then
                  r == Success(true) && stored == Text(installed.value) &&
                  backup == if old(stored).Missing? then old(backup) else old(stored)
                else r == Failure(NotInstalled) && stored == old(stored) && backup == old(backup)
    {
      match installed {
        case Failure(error) => r := Failure(Markers(error));
        case Success(text) =>
          if text == TextOf(stored) {
            return Success(false);
          }
          if !works || stored.Unreadable? {
            return Failure(NotInstalled);
          }
          if !stored.Missing? {
            backup := stored;
          }
          stored := Text(text);
          r := Success(true);
      }
    }

    /** Whether the file was changed. A file whose markers are not in order is left alone, and so is one
        that cannot be copied; whatever is replaced stands in the backup. Text is kept as the install
        keeps it; bytes that are no text count as an empty file. */
    method FixTmux(path: string, works: bool) returns (r: Result<bool, FixError>)
      modifies this
      ensures var installed := InstallTmux(TextOf(old(stored)), TMUX_BEGIN, TMUX_END, TmuxIncludeBlock(path),
                                           LegacyTmux.LEGACY_BEGIN, LegacyTmux.LEGACY_END);
              Outcome(old(stored), old(backup), installed, works, r, stored, backup)
    {
      var migrated := LegacyTmux.MigrateLegacyTmux(TextOf(stored));
      var updated := UpsertManagedBlock(migrated, TMUX_BEGIN, TMUX_END, TmuxIncludeBlock(path));
      r := Replace(updated, works);
    }

    method FixGhostty(path: string, works: bool) returns (r: Result<bool, FixError>)
      modifies this
      ensures var installed := InstallGhostty(TextOf(old(stored)), GHOSTTY_BEGIN, GHOSTTY_END, GhosttyIncludeBlock(path));
              Outcome(old(stored), old(backup), installed, works, r, stored, backup)
    {
      var updated := UpsertManagedBlock(LegacyGhostty.Migrate(TextOf(stored)), GHOSTTY_BEGIN, GHOSTTY_END,
                                        GhosttyIncludeBlock(path));
      r := Replace(updated, works);
    }
  }

  /** A fix, from what was stored and what there is to install. */
  ghost predicate Outcome(before: Stored, copied: Stored, installed: Result<string, MarkerError>, works: bool,
                          r: Result<bool, FixError>, after: Stored, backup: Stored) {
    match r
    case Failure(Markers(error)) => installed == Failure(error) && after == before && backup == copied
    case Failure(NotInstalled) =>
      installed.Success? && installed.value != TextOf(before) && (!works || before.Unreadable?) &&
      after == before && backup == copied
    case Success(false) => installed == Success(TextOf(before)) && after == before && backup == copied
    case Success(true) =>
      installed.Success? && installed.value != TextOf(before) && works && !before.Unreadable? &&
      after == Text(installed.value) && backup == if before.Missing? then copied else before
  }
}
