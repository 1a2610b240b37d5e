/**
 `tweb doctor --fix` on a tmux configuration with the program's own markers and include block:
 exactly which paths a second run would not find at rest.
 */
module DoctorTmux {

  import opened Wrappers
  import opened Sequences
  import opened Text
  import opened ManagedBlock
  import opened Doctor
  import LegacyTmux
  import SweepHook

  const BEGIN := TMUX_BEGIN
  const END := TMUX_END
  const LEGACY_BEGIN := LegacyTmux.LEGACY_BEGIN
  const LEGACY_END := LegacyTmux.LEGACY_END

  ghost function Fix(content: string, path: string): Result<string, MarkerError> {
    MarkersNotEmpty();
    InstallTmux(content, BEGIN, END, TmuxIncludeBlock(path), LEGACY_BEGIN, LEGACY_END)
  }

  lemma MarkersNotEmpty()
    ensures BEGIN != "" && END != "" && LEGACY_END != ""
  {}

  /** A fix that succeeds is at rest: a second one writes nothing, and the block reads back. */
  ghost predicate Settles(content: string, path: string) {
    var first := Fix(content, path);
    first.Success? ==>
      Fix(first.value, path) == first && Managed(first.value, BEGIN, END) == Some(TmuxIncludeBlock(path))
  }

  /** The path's line holds neither marker and no legacy marker. */
  ghost predicate PathFits(path: string) {
    var line := TmuxIncludeLine(path);
    Lacks(line, BEGIN) && Lacks(line, END) && Lacks(line, LEGACY_BEGIN)
  }

  // What the constants are like.

  lemma LegacyIsLonger()
    ensures |LEGACY_BEGIN| > |BEGIN| && |LEGACY_BEGIN| > |END| + 2
    ensures |LEGACY_END| > |BEGIN| && |LEGACY_END| > |END| + 2
  {}

  lemma LegacyBeginLead()
    ensures LEGACY_BEGIN[0] == LEAD && |LEGACY_BEGIN| > 1
  {}

  lemma Constants()
    ensures Pair(BEGIN, END) && LegacyPair(LEGACY_BEGIN, LEGACY_END, END)
    ensures LEGACY_BEGIN[0] == LEAD && LacksLead(LEGACY_END)
    ensures |LEGACY_BEGIN| > |BEGIN| && |LEGACY_BEGIN| > |END| + 2
    ensures |LEGACY_END| > |BEGIN| && |LEGACY_END| > |END| + 2
  {
    ProgramMarkers();
    LegacyIsLonger();
    LegacyBeginLead();
    LegacyEndLacks(LEAD);
  }

  // A path's line cannot hold the legacy end: its backslash would have been escaped.

  lemma {:induction false} EscapedBackslash(path: string, i: nat)
    requires i < |EscapedPath(path)| && EscapedPath(path)[i] == '\\'
    ensures var e := EscapedPath(path);
            || (i + 1 < |e| && (e[i + 1] == '\\' || e[i + 1] == '"'))
            || (i > 0 && e[i - 1] == '\\')
  {
    var n := if path[0] == '\\' || path[0] == '"' then 2 else 1;
    var e, rest := EscapedPath(path), EscapedPath(path[1..]);
    assert e[n..] == rest;
    if i >= n {
      EscapedBackslash(path[1..], i - n);
      assert forall k :: n <= k < |e| ==> e[k] == rest[k - n];
    }
  }

  const LEGACY_FRONT := "bind-key -T tweb-pass WheelDownPane"

  lemma LegacyBackslash()
    ensures var b := |LEGACY_FRONT| + 14;
            && b + 1 < |LEGACY_END|
            && LEGACY_END[b - 1] == ' ' && LEGACY_END[b] == '\\' && LEGACY_END[b + 1] == ';'
  {
    assert LEGACY_END == LEGACY_FRONT + " send-keys -M \\; switch-client -T tweb-pass";
    assert |" send-keys -M "| == 14;
  }

  lemma LineLacksLegacyEnd(path: string)
    ensures Lacks(TmuxIncludeLine(path), LEGACY_END)
  {
    LegacyBackslash();
    var line, e := TmuxIncludeLine(path), EscapedPath(path);
    var front, back := "\nsource-file -q \"", "\"\n";
    var b := |LEGACY_FRONT| + 14;
    forall k ensures !At(line, LEGACY_END, k) {
      if At(line, LEGACY_END, k) {
        AtIndex(line, LEGACY_END, k, k + b - 1);
        AtIndex(line, LEGACY_END, k, k + b);
        AtIndex(line, LEGACY_END, k, k + b + 1);
        BackslashInLine(path, k + b);
      }
    }
  }

  lemma BackslashInLine(path: string, i: nat)
    requires i < |TmuxIncludeLine(path)| && TmuxIncludeLine(path)[i] == '\\'
    ensures var line := TmuxIncludeLine(path);
            || (i + 1 < |line| && (line[i + 1] == '\\' || line[i + 1] == '"'))
            || (i > 0 && line[i - 1] == '\\')
  {
    var line, e := TmuxIncludeLine(path), EscapedPath(path);
    var front, back := "\nsource-file -q \"", "\"\n";
    assert line == front + e + back;
    assert forall k :: 0 <= k < |front| ==> line[k] == front[k] && front[k] != '\\';
    assert forall k :: 0 <= k < |e| ==> line[|front| + k] == e[k];
    assert line[|front| + |e|] == '"' && line[|front| + |e| + 1] == '\n';
    EscapedBackslash(path, i - |front|);
  }

  lemma LineIsFramed(path: string)
    ensures Framed(TmuxIncludeLine(path))
  {}

  /** A legacy marker in the block stands in the path's line. */
  lemma LegacyInBlock(path: string, m: string, k: int)
    requires m == LEGACY_BEGIN || m == LEGACY_END
    requires At(TmuxIncludeBlock(path), m, k)
    ensures At(TmuxIncludeLine(path), m, k - |BEGIN|)
  {
    Constants();
    LineIsFramed(path);
    BlockIs(path);
    hide BEGIN, END, LEGACY_BEGIN, LEGACY_END, TMUX_BEGIN, TMUX_END;
    hide LegacyTmux.LEGACY_BEGIN, LegacyTmux.LEGACY_END, TmuxIncludeLine, TmuxIncludeBlock;
    FrameAt(BEGIN, TmuxIncludeLine(path), END, m, k);
  }

  lemma FitsIsBlock(path: string)
    requires PathFits(path)
    ensures TmuxBlock(TmuxIncludeBlock(path), BEGIN, END, LEGACY_BEGIN, LEGACY_END)
    ensures TrimEnd(TmuxIncludeBlock(path)) == TmuxIncludeBlock(path)
  {
    Constants();
    LineIsFramed(path);
    LineLacksLegacyEnd(path);
    hide BEGIN, END, LEGACY_BEGIN, LEGACY_END, TMUX_BEGIN, TMUX_END, TmuxIncludeLine, TrimEnd;
    hide LegacyTmux.LEGACY_BEGIN, LegacyTmux.LEGACY_END;
    BlockIs(path);
    FramedIsBracketedIff(BEGIN, TmuxIncludeLine(path), END);
    forall k ensures !At(TmuxIncludeBlock(path), LEGACY_BEGIN, k) && !At(TmuxIncludeBlock(path), LEGACY_END, k) {
      if At(TmuxIncludeBlock(path), LEGACY_BEGIN, k) {
        LegacyInBlock(path, LEGACY_BEGIN, k);
      }
      if At(TmuxIncludeBlock(path), LEGACY_END, k) {
        LegacyInBlock(path, LEGACY_END, k);
      }
    }
  }

  lemma BlockIs(path: string)
    ensures TmuxIncludeBlock(path) == BEGIN + TmuxIncludeLine(path) + END
  {}

  // What tmux makes of the block.

  /** Between the double quotes of the include line tmux reads the path back, exactly if there is no dollar
      sign in it: that one is not escaped, and would be expanded. */
  lemma {:induction false} IncludeReadsBackIff(path: string, rest: string)
    ensures SweepHook.ReadDoubleQuoted(EscapedPath(path) + "\"" + rest)
         == if '$' in path then None else Some((path, rest))
  {
    hide SweepHook.ReadDoubleQuoted;
    if path == "" {
      assert EscapedPath(path) + "\"" + rest == "\"" + rest;
      SweepHook.ReadEnd(rest);
    } else {
      IncludeReadsBackIff(path[1..], rest);
      var tail := EscapedPath(path[1..]) + "\"" + rest;
      var first := if path[0] == '\\' || path[0] == '"' then ['\\', path[0]] else [path[0]];
      assert EscapedPath(path) + "\"" + rest == first + tail;
      ReadFirst(path[0], tail);
      assert [path[0]] + path[1..] == path;
    }
  }

  lemma ReadFirst(c: char, tail: string)
    ensures var read := SweepHook.ReadDoubleQuoted(tail);
            SweepHook.ReadDoubleQuoted((if c == '\\' || c == '"' then ['\\', c] else [c]) + tail)
            == if c == '$' || read.None? then None else Some(([c] + read.value.0, read.value.1))
  {
    if c == '\\' || c == '"' {
      assert (['\\', c] + tail)[2..] == tail;
    } else {
      assert ([c] + tail)[1..] == tail;
    }
  }

  /** The block: the markers, and between them one command, whose only argument tmux reads as the path. */
  lemma BlockSourcesPath(path: string)
    ensures var front := BEGIN + "\nsource-file -q \"";
            && front <= TmuxIncludeBlock(path)
            && SweepHook.ReadDoubleQuoted(TmuxIncludeBlock(path)[|front|..])
               == if '$' in path then None else Some((path, "\n" + END))
  {
    IncludeReadsBackIff(path, "\n" + END);
    BlockIs(path);
    hide SweepHook.ReadDoubleQuoted, EscapedPath, BEGIN, END, TMUX_BEGIN, TMUX_END, TmuxIncludeBlock;
    var front, e := BEGIN + "\nsource-file -q \"", EscapedPath(path);
    var rest := e + "\"" + ("\n" + END);
    assert "\"\n" == "\"" + "\n";
    assert TmuxIncludeLine(path) == "\nsource-file -q \"" + e + ("\"" + "\n");
    assert TmuxIncludeBlock(path) == front + rest;
    assert (front + rest)[|front|..] == rest;
  }

  // Paths that do not fit.

  /** The text of a fix on an empty file. */
  lemma EmptyFixed(path: string)
    ensures Fix("", path) == Success(TmuxIncludeBlock(path) + "\n")
  {
    Constants();
    BlockIs(path);
    hide BEGIN, END, LEGACY_BEGIN, LEGACY_END, TMUX_BEGIN, TMUX_END, TmuxIncludeLine, TrimEnd, Upsert, Marker;
    hide LegacyTmux.LEGACY_BEGIN, LegacyTmux.LEGACY_END;
    LegacyTmux.MigrateChangesIff("", LEGACY_BEGIN, LEGACY_END);
    UpsertEmpty(BEGIN, END, TmuxIncludeBlock(path));
    EndsTrimmed(BEGIN + TmuxIncludeLine(path), END);
  }

  /** Where the file was no text, nothing of it is kept but in the backup: a fix that changes it leaves
      the block alone. Where it was text, the install is told all of it. */
  lemma OnlyTextIsKept(before: Stored, copied: Stored, path: string, works: bool, r: Result<bool, FixError>, after: Stored,
                       backup: Stored)
    requires Outcome(before, copied, Fix(TextOf(before), path), works, r, after, backup)
    ensures before.Unreadable? ==> after == before
    ensures before.NotText? && works ==>
              r == Success(true) && after == Text(TmuxIncludeBlock(path) + "\n") && backup == before
    ensures before.Text? && r == Success(true) ==> Success(after.content) == Fix(before.content, path)
    ensures after != before && !before.Missing? ==> backup == before
  {
    hide Fix;
    EmptyFixed(path);
  }

  /** Whatever stands between legacy blocks survives a fix: it is all there, with the block in place of
      the one that stood in it. */
  lemma FixKeepsAround(parts: seq<string>, blocks: seq<string>, path: string, p: string, r: string, s: string)
    requires LegacyTmux.BlocksBetween(parts, blocks, LEGACY_BEGIN, LEGACY_END)
    requires Flatten(parts) == p + r + s && Installed(p, r, s, BEGIN, END)
    ensures Fix(LegacyTmux.Woven(parts, blocks), path) == Success(p + TmuxIncludeBlock(path) + s)
  {
    Constants();
    LegacyTmux.LegacyApart();
    EndsTrimmed(BEGIN + TmuxIncludeLine(path), END);
    BlockIs(path);
    hide BEGIN, END, LEGACY_BEGIN, LEGACY_END, TMUX_BEGIN, TMUX_END, TmuxIncludeLine, TmuxIncludeBlock, Installed, Upsert;
    hide LegacyTmux.LEGACY_BEGIN, LegacyTmux.LEGACY_END, TrimEnd, Marker;
    LegacyTmux.MigrateKeepsRest(parts, blocks, LEGACY_BEGIN, LEGACY_END);
    InstalledReplaced(p, r, s, BEGIN, END, TmuxIncludeBlock(path));
  }

  /** Or with the block behind it, if there was none. */
  lemma FixKeepsBefore(parts: seq<string>, blocks: seq<string>, path: string, text: string, pad: string)
    requires LegacyTmux.BlocksBetween(parts, blocks, LEGACY_BEGIN, LEGACY_END)
    requires Flatten(parts) == text + pad && AllSpace(pad) && text != "" && !IsSpace(text[|text| - 1])
    requires Lacks(text + pad, BEGIN) && Lacks(text + pad, END)
    ensures Fix(LegacyTmux.Woven(parts, blocks), path) == Success(text + "\n\n" + TmuxIncludeBlock(path) + "\n")
  {
    Constants();
    LegacyTmux.LegacyApart();
    MarkersNotEmpty();
    EndsTrimmed(BEGIN + TmuxIncludeLine(path), END);
    BlockIs(path);
    hide BEGIN, END, LEGACY_BEGIN, LEGACY_END, TMUX_BEGIN, TMUX_END, TmuxIncludeLine, TmuxIncludeBlock, Upsert;
    hide LegacyTmux.LEGACY_BEGIN, LegacyTmux.LEGACY_END, TrimEnd, Marker, Lacks;
    LegacyTmux.MigrateKeepsRest(parts, blocks, LEGACY_BEGIN, LEGACY_END);
    AppendedBehind(text, pad, BEGIN, END, TmuxIncludeBlock(path));
  }

  lemma BlockLineLacks(path: string, m: string)
    requires m == LEGACY_BEGIN || m == LEGACY_END
    requires Lacks(TmuxIncludeLine(path), m)
    ensures Lacks(TmuxIncludeBlock(path) + "\n", m)
  {
    Constants();
    hide BEGIN, END, LEGACY_BEGIN, LEGACY_END, TMUX_BEGIN, TMUX_END, TmuxIncludeLine, TmuxIncludeBlock;
    hide LegacyTmux.LEGACY_BEGIN, LegacyTmux.LEGACY_END;
    var block := TmuxIncludeBlock(path);
    forall k ensures !At(block, m, k) {
      if At(block, m, k) {
        LegacyInBlock(path, m, k);
      }
    }
    LineLacks(block, block, "\n", m);
  }

  /** A marker in the path's line: the block then holds it twice, and a second run is refused. */
  lemma MarkerInPathRefused(path: string, m: string, j: int)
    requires (m == BEGIN || m == END) && At(TmuxIncludeLine(path), m, j)
    requires Lacks(TmuxIncludeLine(path), LEGACY_BEGIN)
    ensures Fix("", path) == Success(TmuxIncludeBlock(path) + "\n")
    ensures Fix(TmuxIncludeBlock(path) + "\n", path) == Failure(Duplicated)
  {
    Constants();
    EmptyFixed(path);
    LineLacksLegacyEnd(path);
    BlockLineLacks(path, LEGACY_BEGIN);
    BlockIs(path);
    hide BEGIN, END, LEGACY_BEGIN, LEGACY_END, TMUX_BEGIN, TMUX_END, TmuxIncludeLine, TmuxIncludeBlock, Upsert;
    hide LegacyTmux.LEGACY_BEGIN, LegacyTmux.LEGACY_END, Marker;
    var line, block := TmuxIncludeLine(path), TmuxIncludeBlock(path);
    var z := block + "\n";
    LegacyTmux.MigrateChangesIff(z, LEGACY_BEGIN, LEGACY_END);
    MarkersAtEnds(BEGIN, line, END);
    MiddleAt(BEGIN, line, END, m, j);
    var other := if m == BEGIN then 0 else |BEGIN| + |line|;
    AtLeft(block, "\n", m, |BEGIN| + j);
    AtLeft(block, "\n", m, other);
    DuplicateRefused(z, BEGIN, END, block, m, |BEGIN| + j, other);
  }

  /** A configuration whose managed block is empty and that goes on with a stray legacy end. */
  function Stray(): string {
    BEGIN + "\n" + END + ("\n" + LEGACY_END)
  }

  lemma StrayTail()
    ensures Installed("", BEGIN + "\n" + END, "\n" + LEGACY_END, BEGIN, END)
    ensures Lacks(Stray(), LEGACY_BEGIN)
  {
    Constants();
    hide BEGIN, END, LEGACY_BEGIN, LEGACY_END, TMUX_BEGIN, TMUX_END;
    hide LegacyTmux.LEGACY_BEGIN, LegacyTmux.LEGACY_END;
    FramedIsBracketedIff(BEGIN, "\n", END);
    var tail := "\n" + LEGACY_END;
    assert LacksLead(tail);
    forall k, m | (m == BEGIN || m == END || m == LEGACY_BEGIN) && At(tail, m, k) ensures false {
      AtIndex(tail, m, k, k);
      assert false;
    }
    var middle := "\n" + END + "\n";
    assert Stray() == BEGIN + middle + LEGACY_END;
    forall k ensures !At(Stray(), LEGACY_BEGIN, k) {
      if At(Stray(), LEGACY_BEGIN, k) {
        FrameAt(BEGIN, middle, LEGACY_END, LEGACY_BEGIN, k);
        AtIndex(LEGACY_END, LEGACY_BEGIN, k - |BEGIN| - |middle|, k - |BEGIN| - |middle|);
      }
    }
  }

  /** The first run replaces the block and keeps the stray end. */
  lemma StrayFixed(path: string)
    ensures Fix(Stray(), path) == Success(TmuxIncludeBlock(path) + "\n" + LEGACY_END)
  {
    Constants();
    StrayTail();
    BlockIs(path);
    hide BEGIN, END, LEGACY_BEGIN, LEGACY_END, TMUX_BEGIN, TMUX_END, TmuxIncludeLine, TmuxIncludeBlock, Upsert;
    hide LegacyTmux.LEGACY_BEGIN, LegacyTmux.LEGACY_END, Marker, TrimEnd, Installed;
    var block, tail := TmuxIncludeBlock(path), "\n" + LEGACY_END;
    LegacyTmux.MigrateChangesIff(Stray(), LEGACY_BEGIN, LEGACY_END);
    InstalledReplaced("", BEGIN + "\n" + END, tail, BEGIN, END, block);
    assert Stray() == "" + (BEGIN + "\n" + END) + tail;
    EndsTrimmed(BEGIN + TmuxIncludeLine(path), END);
    assert "" + block + tail == block + "\n" + LEGACY_END;
  }

  /** In that text the legacy end stands only behind the block. */
  lemma OnlyStrayEnd(path: string, k: int)
    requires At(TmuxIncludeBlock(path) + "\n" + LEGACY_END, LEGACY_END, k)
    ensures k == |TmuxIncludeBlock(path)| + 1
  {
    Constants();
    LineLacksLegacyEnd(path);
    hide BEGIN, END, LEGACY_BEGIN, LEGACY_END, TMUX_BEGIN, TMUX_END, TmuxIncludeLine, TmuxIncludeBlock;
    hide LegacyTmux.LEGACY_BEGIN, LegacyTmux.LEGACY_END;
    FrameAt(TmuxIncludeBlock(path), "\n", LEGACY_END, LEGACY_END, k);
    if At(TmuxIncludeBlock(path), LEGACY_END, k) {
      LegacyInBlock(path, LEGACY_END, k);
    }
  }

  /** A second migration deletes from the first legacy begin to the stray end. */
  lemma CutAtLegacy(path: string, z: string)
    requires z == TmuxIncludeBlock(path) + "\n" + LEGACY_END
    requires LegacyTmux.HasBlock(z, LEGACY_BEGIN, LEGACY_END)
    ensures var m := LegacyTmux.Migrate(z, LEGACY_BEGIN, LEGACY_END);
            m <= z && Lacks(m, LEGACY_END)
  {
    Constants();
    hide BEGIN, END, LEGACY_BEGIN, LEGACY_END, TMUX_BEGIN, TMUX_END, TmuxIncludeLine, TmuxIncludeBlock;
    hide LegacyTmux.LEGACY_BEGIN, LegacyTmux.LEGACY_END, Marker, Unsplit;
    var (a, finish) := LegacyTmux.FirstBlock(z, LEGACY_BEGIN, LEGACY_END).value;
    OnlyStrayEnd(path, finish - |LEGACY_END|);
    var next := z[..a];
    assert next + z[finish..] == next;
    forall k ensures !At(next, LEGACY_END, k) {
      if At(next, LEGACY_END, k) {
        assert next == z[0..a];
        AtCut(z, 0, a, LEGACY_END, k);
        OnlyStrayEnd(path, k);
      }
    }
    LegacyTmux.MigrateChangesIff(next, LEGACY_BEGIN, LEGACY_END);
  }

  lemma StrayTailGone(block: string, end: string, m: string, from: nat)
    requires end != "" && Lacks(m, end) && from <= |m|
    ensures block + m[from..] != block + "\n" + end
  {
    var tail, z := m[from..], block + "\n" + end;
    if block + tail == z {
      assert z[|block|..] == tail && z[|block|..] == "\n" + end;
      assert tail[1..1 + |end|] == end && m[from..|m|] == tail;
      AtCut(m, from, |m|, end, 1);
    }
  }

  /** Where an upsert puts a block: around what it keeps of the text, or at its end. */
  lemma UpsertForms(m: string, begin: string, end: string, block: string)
    requires begin != "" && end != "" && Upsert(m, begin, end, block).Success?
    ensures var z := Upsert(m, begin, end, block).value;
            || (exists from: nat :: from <= |m| && Find(m, begin, 0).Some? &&
                                    z == m[..Find(m, begin, 0).value] + TrimEnd(block) + m[from..])
            || (Find(m, begin, 0).None? && z != "" && z[|z| - 1] == '\n')
  {
    hide Count, TrimEnd, Trim;
    if Find(m, begin, 0).Some? {
      var last := Find(m, end, Find(m, begin, 0).value).value;
      assert last + |end| <= |m|;
    }
  }

  lemma FoundFirst(m: string, z: string, begin: string)
    requires m <= z && begin <= z && Find(m, begin, 0).Some?
    ensures Find(m, begin, 0) == Some(0)
  {
    assert m[0..|begin|] == z[..|begin|] == begin;
    FindAt(m, begin, 0, 0);
  }

  lemma LastOfEnd(block: string, end: string)
    requires end != "" && OneLine(end)
    ensures var z := block + "\n" + end; z[|z| - 1] != '\n'
  {
    assert (block + "\n" + end)[|block + "\n" + end| - 1] == end[|end| - 1];
  }

  lemma BlockEnds(path: string)
    ensures TrimEnd(TmuxIncludeBlock(path)) == TmuxIncludeBlock(path)
    ensures BEGIN != "" && END != "" && LEGACY_END != "" && OneLine(LEGACY_END)
  {
    Constants();
    EndsTrimmed(BEGIN + TmuxIncludeLine(path), END);
  }

  lemma BlockBegins(path: string, rest: string)
    ensures BEGIN <= TmuxIncludeBlock(path) + rest
  {
    BlockIs(path);
    assert BEGIN + TmuxIncludeLine(path) + END + rest == BEGIN + (TmuxIncludeLine(path) + END + rest);
  }

  /** No text that begins like the fixed one but has lost the stray end is fixed to it. */
  lemma StrayEndGone(path: string, z: string, m: string)
    requires z == TmuxIncludeBlock(path) + "\n" + LEGACY_END && m <= z && Lacks(m, LEGACY_END)
    ensures Upsert(m, BEGIN, END, TmuxIncludeBlock(path)) != Success(z)
  {
    BlockEnds(path);
    BlockBegins(path, "\n" + LEGACY_END);
    hide BEGIN, END, LEGACY_BEGIN, LEGACY_END, TMUX_BEGIN, TMUX_END, TmuxIncludeLine, TmuxIncludeBlock;
    hide LegacyTmux.LEGACY_BEGIN, LegacyTmux.LEGACY_END, Unsplit, Upsert, TrimEnd, Find, OneLine, Lacks;
    var block := TmuxIncludeBlock(path);
    assert z == block + ("\n" + LEGACY_END);
    LastOfEnd(block, LEGACY_END);
    if Upsert(m, BEGIN, END, block) == Success(z) {
      UpsertForms(m, BEGIN, END, block);
      if Find(m, BEGIN, 0).Some? {
        FoundFirst(m, z, BEGIN);
        var from: nat :| from <= |m| && z == m[..0] + block + m[from..];
        assert m[..0] + block + m[from..] == block + m[from..];
        StrayTailGone(block, LEGACY_END, m, from);
      }
    }
  }

  /** The legacy begin in the path's line: on such a configuration the second run undoes the first. */
  lemma LegacyInPathUnsettles(path: string, j: int)
    requires At(TmuxIncludeLine(path), LEGACY_BEGIN, j)
    ensures Fix(Stray(), path).Success? && !Settles(Stray(), path)
  {
    MarkersNotEmpty();
    StrayFixed(path);
    BlockIs(path);
    hide BEGIN, END, LEGACY_BEGIN, LEGACY_END, TMUX_BEGIN, TMUX_END, TmuxIncludeLine, TmuxIncludeBlock;
    hide LegacyTmux.LEGACY_BEGIN, LegacyTmux.LEGACY_END, Upsert, Marker;
    var line, block := TmuxIncludeLine(path), TmuxIncludeBlock(path);
    var z := block + "\n" + LEGACY_END;
    MiddleAt(BEGIN, line, END, LEGACY_BEGIN, j);
    assert z == block + ("\n" + LEGACY_END);
    AtLeft(block, "\n" + LEGACY_END, LEGACY_BEGIN, |BEGIN| + j);
    assert z[|block| + 1..|z|] == LEGACY_END;
    assert At(z, LEGACY_END, |block| + 1);
    CutAtLegacy(path, z);
    StrayEndGone(path, z, LegacyTmux.Migrate(z, LEGACY_BEGIN, LEGACY_END));
  }

  /** Whatever the file held: with a path that fits, the second run writes nothing. */
  lemma FixTmuxTwice(content: string, path: string)
    requires PathFits(path)
    ensures Settles(content, path)
  {
    Constants();
    FitsIsBlock(path);
    hide BEGIN, END, LEGACY_BEGIN, LEGACY_END, TMUX_BEGIN, TMUX_END, TmuxIncludeBlock, InstallTmux, Managed;
    hide LegacyTmux.LEGACY_BEGIN, LegacyTmux.LEGACY_END, Marker, TmuxBlock, LegacyPair, PathFits, TrimEnd;
    if Fix(content, path).Success? {
      InstallTmuxFixpoint(content, BEGIN, END, TmuxIncludeBlock(path), LEGACY_BEGIN, LEGACY_END);
    }
  }

  /** A second `--fix` is at rest on every tmux configuration if and only if the path's line holds
      neither marker of the block nor the legacy begin. */
  lemma FixTmuxTwiceIff(path: string)
    ensures PathFits(path) <==> forall content :: Settles(content, path)
  {
    hide Fix, Managed, Settles;
    if PathFits(path) {
      forall content ensures Settles(content, path) {
        FixTmuxTwice(content, path);
      }
    } else {
      PathUnfit(path);
    }
  }

  lemma PathUnfit(path: string)
    requires !PathFits(path)
    ensures exists content :: !Settles(content, path)
  {
    hide Fix, Managed, BEGIN, END, LEGACY_BEGIN, TmuxIncludeLine, TmuxIncludeBlock;
    var line := TmuxIncludeLine(path);
    if j :| At(line, LEGACY_BEGIN, j) {
      LegacyInPathUnsettles(path, j);
      assert !Settles(Stray(), path);
    } else if j :| At(line, BEGIN, j) {
      MarkerInPathRefused(path, BEGIN, j);
      assert !Settles("", path);
    } else if j :| At(line, END, j) {
      MarkerInPathRefused(path, END, j);
      assert !Settles("", path);
    }
  }

  lemma {:induction false} PlainEscaped(path: string)
    requires forall k :: 0 <= k < |path| ==> path[k] != '\\' && path[k] != '"'
    ensures EscapedPath(path) == path
  {
    if path != "" {
      PlainEscaped(path[1..]);
      assert [path[0]] + path[1..] == path;
    }
  }

  lemma EndIsPlain()
    ensures forall k :: 0 <= k < |END| ==> END[k] != '\\' && END[k] != '"'
  {}

  lemma EndIsShort()
    ensures |END| + 20 < |LEGACY_BEGIN|
  {}

  /** A path that fails: the block's end marker. The second run finds it twice and refuses. */
  lemma EndMarkerPathFails()
    ensures !PathFits(END) && Fix("", END).Success?
    ensures Fix(Fix("", END).value, END) == Failure(Duplicated)
  {
    EndIsPlain();
    EndIsShort();
    PlainEscaped(END);
    hide BEGIN, END, TMUX_END, LEGACY_BEGIN, LEGACY_END, Fix;
    var front, back := "\nsource-file -q \"", "\"\n";
    assert TmuxIncludeLine(END) == front + END + back;
    assert (front + END + back)[|front|..|front| + |END|] == END;
    assert At(TmuxIncludeLine(END), END, |front|);
    MarkerInPathRefused(END, END, |front|);
  }
}
