/**
 `tweb doctor --fix` on a Ghostty configuration with the program's own markers and include block:
 exactly which paths a second run would not find at rest.
 */
module DoctorGhostty {

  import opened Wrappers
  import opened Sequences
  import opened Text
  import opened ManagedBlock
  import opened Doctor
  import opened LegacyGhostty

  /** A fix that succeeds is at rest: a second one writes nothing, and the block reads back. */
  ghost predicate AtRest(content: string, begin: string, end: string, block: string)
    requires begin != "" && end != ""
  {
    var first := InstallGhostty(content, begin, end, block);
    first.Success? ==>
      InstallGhostty(first.value, begin, end, block) == first && Managed(first.value, begin, end) == Some(block)
  }

  lemma MarkerLineClean(begin: string)
    requires Marker(begin)
    ensures !IsLegacyBinding(begin) && !IsLegacyBinding(begin + "\n")
  {
    hide IsLegacyBinding;
    NotBindingIfLead(begin, 0);
    NotBindingIfLead(begin + "\n", 0);
  }

  /** Two marker lines and nothing between are no bindings. */
  lemma EmptyBlockClean(begin: string, end: string)
    requires Pair(begin, end)
    ensures Clean(begin + "\n" + end) && Bracketed(begin + "\n" + end, begin, end)
    ensures TrimEnd(begin + "\n" + end) == begin + "\n" + end
  {
    hide IsLegacyBinding;
    FramedIsBracketedIff(begin, "\n", end);
    MarkerLineClean(begin);
    MarkerLineClean(end);
    ConsClean(end, "");
    assert end + "" == end;
    assert (begin + "\n")[..|begin|] == begin;
    ConsClean(begin + "\n", end);
  }

  /** A text with a block in it, in three parts at the ends of its marker lines. */
  lemma ThreeParts(p: string, begin: string, middle: string, end: string, s: string)
    requires Framed(middle)
    ensures p + (begin + middle + end) + s == (p + begin + "\n") + (middle[1..] + (end + s))
  {
    assert middle == "\n" + middle[1..];
  }

  /** Filtering a text around a block filters what stands between the markers and nothing else. */
  lemma FilterBetween(y: string, begin: string, middle: string, end: string, block: string)
    requires Pair(begin, end) && Framed(middle) && block == begin + middle + end && Clean(y)
    requires Upsert(y, begin, end, begin + "\n" + end).Success?
    ensures var p, s := Before(y, begin), After(y, begin, end);
            Migrate(p + block + s) == (p + begin + "\n") + (Migrate(middle[1..]) + (end + s))
  {
    hide Upsert, Migrate, Clean, Before, After, TrimEnd, Bracketed, Installed, Pair;
    var p, s := Before(y, begin), After(y, begin, end);
    var front, back := p + begin + "\n", end + s;
    EmptyBlockClean(begin, end);
    InstallKeepsClean(y, begin, end, begin + "\n" + end);
    UpsertInstalls(y, begin, end, begin + "\n" + end);
    assert p + (begin + "\n" + end) + s == front + back;
    FixedParts(front, back);
    ThreeParts(p, begin, middle, end, s);
    MigrateConcat(front, middle[1..] + back);
    assert middle[1..] != "" ==> middle[1..][|middle[1..]| - 1] == '\n';
    MigrateConcat(middle[1..], back);
  }

  /** Whether putting a block in succeeds does not depend on the block. */
  lemma SuccessIsAlike(y: string, begin: string, end: string, a: string, b: string)
    requires begin != "" && end != ""
    ensures Upsert(y, begin, end, a).Success? <==> Upsert(y, begin, end, b).Success?
  {}

  /** Whatever the file held, and whatever bindings the block's own text looks like: if the markers do
      not stand in it, the fix is at rest. */
  lemma FramedAtRest(content: string, begin: string, middle: string, end: string)
    requires Pair(begin, end) && Framed(middle) && Lacks(middle, begin) && Lacks(middle, end)
    ensures AtRest(content, begin, end, begin + middle + end)
  {
    hide Upsert, Migrate, Clean, Before, After, TrimEnd, Bracketed, Installed, Managed;
    var block := begin + middle + end;
    var y := Migrate(content);
    MigrateClean(content);
    FramedIsBracketedIff(begin, middle, end);
    if Upsert(y, begin, end, block).Success? {
      UpsertInstalls(y, begin, end, block);
      var p, s := Before(y, begin), After(y, begin, end);
      SuccessIsAlike(y, begin, end, block, begin + "\n" + end);
      FilterBetween(y, begin, middle, end, block);
      var kept := "\n" + Migrate(middle[1..]);
      KeptLacks(middle, begin);
      KeptLacks(middle, end);
      KeptFramed(middle);
      FramedIsBracketedIff(begin, kept, end);
      ThreeParts(p, begin, kept, end, s);
      assert kept[1..] == Migrate(middle[1..]);
      InstalledSwap(p, block, begin + kept + end, s, begin, end);
      InstalledReplaced(p, begin + kept + end, s, begin, end, block);
      InstalledReplaced(p, block, s, begin, end, block);
    }
  }

  lemma InstalledSwap(p: string, r: string, r': string, s: string, begin: string, end: string)
    requires Installed(p, r, s, begin, end) && Bracketed(r', begin, end)
    ensures Installed(p, r', s, begin, end)
  {}

  lemma KeptLacks(middle: string, m: string)
    requires Framed(middle) && Marker(m) && Lacks(middle, m)
    ensures Lacks("\n" + Migrate(middle[1..]), m)
  {
    hide Migrate;
    var rest := middle[1..];
    assert middle == "\n" + rest;
    forall k ensures !At(rest, m, k) {
      if At(rest, m, k) {
        AtRight("\n", rest, m, k + 1);
      }
    }
    MigrateLacks(rest, m);
    forall k ensures !At("\n" + Migrate(rest), m, k) {
      if At("\n" + Migrate(rest), m, k) {
        if k == 0 {
          AtIndex("\n" + Migrate(rest), m, 0, 0);
        } else {
          AtRight("\n", Migrate(rest), m, k);
        }
      }
    }
  }

  lemma KeptFramed(middle: string)
    requires Framed(middle)
    ensures Framed("\n" + Migrate(middle[1..]))
  {
    hide Migrate;
    var rest := middle[1..];
    if rest == "" {
      MigrateNothing();
    } else {
      assert rest[|rest| - 1] == '\n';
      MigrateEndsLine(rest);
    }
  }

  lemma {:induction false} MigrateEndsLine(text: string)
    requires text != "" ==> text[|text| - 1] == '\n'
    ensures Migrate(text) != "" ==> Migrate(text)[|Migrate(text)| - 1] == '\n'
  {
    hide IsLegacyBinding;
    if text != "" {
      var n := LineEnd(text);
      assert text[n..] != "" ==> text[n..][|text[n..]| - 1] == '\n';
      MigrateEndsLine(text[n..]);
      assert text[..n] == text[0..n] && text[n - 1] == '\n';
    }
  }

  // Markers in the block.

  lemma MarkerNotInBindings(content: string, m: string)
    requires Marker(m)
    ensures NotInBindings(content, m)
  {
    hide IsLegacyBinding;
    forall i, j, q | IsLine(content, i, j) && At(content[i..j], m, q) ensures !IsLegacyBinding(content[i..j]) {
      AtIndex(content[i..j], m, q, q);
      NotBindingIfLead(content[i..j], q);
    }
  }

  /** What filtering makes of a block alone in a file. */
  lemma FilteredBlock(begin: string, middle: string, end: string)
    requires Pair(begin, end) && Framed(middle)
    ensures Migrate(begin + middle + end + "\n") == begin + ("\n" + Migrate(middle[1..])) + end + "\n"
  {
    hide Upsert, Clean, TrimEnd, Bracketed, Installed, Migrate, Pair, Before, After;
    PairMarkers(begin, end);
    EmptyText(begin, end);
    UpsertEmpty(begin, end, begin + "\n" + end);
    FilterBetween("", begin, middle, end, begin + middle + end);
    var kept := "\n" + Migrate(middle[1..]);
    KeptFramed(middle);
    assert kept[1..] == Migrate(middle[1..]);
    ThreeParts("", begin, kept, end, "\n");
    assert "" + (begin + middle + end) + "\n" == begin + middle + end + "\n";
    assert "" + (begin + kept + end) + "\n" == begin + kept + end + "\n";
  }

  lemma TwiceRefused(begin: string, kept: string, end: string, block: string, m: string, j: int)
    requires Pair(begin, end) && Framed(kept) && (m == begin || m == end) && At(kept, m, j)
    ensures Upsert(begin + kept + end + "\n", begin, end, block) == Failure(Duplicated)
  {
    PairMarkers(begin, end);
    assert 0 <= j && j + |m| <= |kept| && |m| > 0;
    hide Upsert, Pair, At, Framed, Marker;
    MarkersAtEnds(begin, kept, end);
    MiddleAt(begin, kept, end, m, j);
    var other := if m == begin then 0 else |begin| + |kept|;
    AtLeft(begin + kept + end, "\n", m, |begin| + j);
    AtLeft(begin + kept + end, "\n", m, other);
    DuplicateRefused(begin + kept + end + "\n", begin, end, block, m, |begin| + j, other);
  }

  /** A marker in the text between: the second run finds it twice and refuses. */
  lemma MarkerBetweenRefused(begin: string, middle: string, end: string, m: string, j: int)
    requires Pair(begin, end) && Framed(middle) && (m == begin || m == end) && At(middle, m, j)
    ensures var block := begin + middle + end;
            && InstallGhostty("", begin, end, block) == Success(block + "\n")
            && InstallGhostty(block + "\n", begin, end, block) == Failure(Duplicated)
  {
    hide Upsert, TrimEnd, Migrate, Pair, At;
    var block := begin + middle + end;
    PairMarkers(begin, end);
    MigrateNothing();
    UpsertEmpty(begin, end, block);
    EndsTrimmed(begin + middle, end);
    FilteredBlock(begin, middle, end);
    MarkerKept(middle, m, j);
    var kept := "\n" + Migrate(middle[1..]);
    var j' :| At(kept, m, j');
    KeptFramed(middle);
    TwiceRefused(begin, kept, end, block, m, j');
  }

  lemma PairMarkers(begin: string, end: string)
    requires Pair(begin, end)
    ensures Marker(begin) && Marker(end)
  {}

  lemma EmptyText(begin: string, end: string)
    requires begin != "" && end != ""
    ensures Before("", begin) == "" && After("", begin, end) == "\n" && Clean("")
  {
    TrimTrimmed("");
  }

  lemma MarkerKept(middle: string, m: string, j: int)
    requires Framed(middle) && Marker(m) && At(middle, m, j)
    ensures exists j' :: At("\n" + Migrate(middle[1..]), m, j')
  {
    hide Migrate;
    var rest := middle[1..];
    assert middle == "\n" + rest;
    AtIndex(middle, m, j, j);
    AtRight("\n", rest, m, j);
    MarkerNotInBindings(rest, m);
    MigrateKeeps(rest, m, j - 1);
    var k :| At(Migrate(rest), m, k);
    AtRight("\n", Migrate(rest), m, k + 1);
    assert At("\n" + Migrate(rest), m, k + 1);
  }

  // The program's own block.

  const BEGIN := GHOSTTY_BEGIN
  const END := GHOSTTY_END

  lemma Markers()
    ensures Pair(BEGIN, END)
  {
    GhosttyMarkers();
  }

  ghost predicate Settles(content: string, path: string) {
    BEGIN != "" && END != "" && AtRest(content, BEGIN, END, GhosttyIncludeBlock(path))
  }

  ghost predicate PathFits(path: string) {
    Lacks(GhosttyIncludeLine(path), BEGIN) && Lacks(GhosttyIncludeLine(path), END)
  }

  lemma LineIsFramed(path: string)
    ensures Framed(GhosttyIncludeLine(path))
    ensures GhosttyIncludeBlock(path) == BEGIN + GhosttyIncludeLine(path) + END
  {}

  /** A second `--fix` is at rest on every Ghostty configuration if and only if the path's line holds
      neither marker of the block. */
  lemma FixGhosttyTwiceIff(path: string)
    ensures PathFits(path) <==> forall content :: Settles(content, path)
  {
    Markers();
    LineIsFramed(path);
    hide BEGIN, END, GHOSTTY_BEGIN, GHOSTTY_END, GhosttyIncludeLine, GhosttyIncludeBlock, AtRest;
    var line := GhosttyIncludeLine(path);
    if PathFits(path) {
      forall content ensures Settles(content, path) {
        FramedAtRest(content, BEGIN, line, END);
      }
    } else {
      PathUnfit(path);
      assert !Settles("", path);
    }
  }

  /** What happens with a path that does not fit, on an empty configuration. */
  lemma PathUnfit(path: string)
    requires !PathFits(path)
    ensures InstallGhostty("", BEGIN, END, GhosttyIncludeBlock(path)).Success?
    ensures var z := InstallGhostty("", BEGIN, END, GhosttyIncludeBlock(path)).value;
            InstallGhostty(z, BEGIN, END, GhosttyIncludeBlock(path)) == Failure(Duplicated)
    ensures !Settles("", path)
  {
    Markers();
    LineIsFramed(path);
    hide BEGIN, END, GHOSTTY_BEGIN, GHOSTTY_END, GhosttyIncludeLine, GhosttyIncludeBlock, InstallGhostty;
    var line := GhosttyIncludeLine(path);
    if j :| At(line, BEGIN, j) {
      MarkerBetweenRefused(BEGIN, line, END, BEGIN, j);
    } else {
      var j :| At(line, END, j);
      MarkerBetweenRefused(BEGIN, line, END, END, j);
    }
  }

  /** The block: the markers, and between them the one line that names the path. */
  lemma BlockNamesPath(path: string)
    ensures GhosttyIncludeBlock(path) == GHOSTTY_BEGIN + ("\nconfig-file = " + path + "\n") + GHOSTTY_END
  {}

  /** A legacy binding on a line of its own makes no difference to what is installed. */
  lemma FixForgetsLegacy(before: string, line: string, after: string, path: string)
    requires before == "" || before[|before| - 1] == '\n'
    requires line != "" && '\n' !in line[..|line| - 1] && (line[|line| - 1] == '\n' || after == "")
    requires exists lead, core, tail, i :: Spells(line, lead, core, tail, i)
    ensures GHOSTTY_BEGIN != "" && GHOSTTY_END != ""
    ensures InstallGhostty(before + line + after, GHOSTTY_BEGIN, GHOSTTY_END, GhosttyIncludeBlock(path))
         == InstallGhostty(before + after, GHOSTTY_BEGIN, GHOSTTY_END, GhosttyIncludeBlock(path))
  {
    Markers();
    hide GHOSTTY_BEGIN, GHOSTTY_END, GhosttyIncludeBlock, Migrate, Spells, Upsert;
    MigrateConcat(before, line + after);
    MigrateConcat(before, after);
    MigrateLineByLine(line, after);
    assert before + line + after == before + (line + after);
  }

  /** And what else the file holds is kept: around the block that stands in it, or before the new one. */
  lemma FixKeepsAround(p: string, r: string, s: string, path: string)
    requires GHOSTTY_BEGIN != "" && GHOSTTY_END != ""
    requires Clean(p + r + s) && Installed(p, r, s, GHOSTTY_BEGIN, GHOSTTY_END)
    ensures InstallGhostty(p + r + s, GHOSTTY_BEGIN, GHOSTTY_END, GhosttyIncludeBlock(path))
         == Success(p + GhosttyIncludeBlock(path) + s)
  {
    Markers();
    LineIsFramed(path);
    EndsTrimmed(GHOSTTY_BEGIN + GhosttyIncludeLine(path), GHOSTTY_END);
    hide GHOSTTY_BEGIN, GHOSTTY_END, GhosttyIncludeBlock, GhosttyIncludeLine, Migrate, Upsert, TrimEnd, Installed;
    CleanIsFixed(p + r + s);
    InstalledReplaced(p, r, s, GHOSTTY_BEGIN, GHOSTTY_END, GhosttyIncludeBlock(path));
  }

  lemma FixKeepsBefore(text: string, pad: string, path: string)
    requires GHOSTTY_BEGIN != "" && GHOSTTY_END != ""
    requires Clean(text + pad) && AllSpace(pad) && text != "" && !IsSpace(text[|text| - 1])
    requires Lacks(text + pad, GHOSTTY_BEGIN) && Lacks(text + pad, GHOSTTY_END)
    ensures InstallGhostty(text + pad, GHOSTTY_BEGIN, GHOSTTY_END, GhosttyIncludeBlock(path))
         == Success(text + "\n\n" + GhosttyIncludeBlock(path) + "\n")
  {
    Markers();
    LineIsFramed(path);
    EndsTrimmed(GHOSTTY_BEGIN + GhosttyIncludeLine(path), GHOSTTY_END);
    hide GHOSTTY_BEGIN, GHOSTTY_END, GhosttyIncludeBlock, GhosttyIncludeLine, Migrate, Upsert, TrimEnd, Lacks;
    CleanIsFixed(text + pad);
    AppendedBehind(text, pad, GHOSTTY_BEGIN, GHOSTTY_END, GhosttyIncludeBlock(path));
  }
}
