/**
 The block of a user's configuration file that `tweb doctor --fix` keeps up to date: found by its
 begin and end markers, replaced where it stands, appended when it is missing.
 */
module ManagedBlock {

  import opened Wrappers
  import opened Sequences
  import opened Text

  datatype MarkerError = Duplicated | NoEnd | NoBegin

  const LEAD: char := '#'

  /** How many non-overlapping occurrences there are from a position on. */
  ghost function Count(text: string, pattern: string, from: nat): nat
    requires pattern != ""
    decreases |text| - from
  {
    match Find(text, pattern, from)
    case None => 0
    case Some(i) => 1 + Count(text, pattern, i + |pattern|)
  }

  method CountMatches(text: string, pattern: string) returns (count: nat)
    requires pattern != ""
    ensures count == Count(text, pattern, 0)
  {
    count := 0;
    var cursor := 0;
    var next := FindFirst(text, pattern, cursor);
    while next.Some?
      invariant next == Find(text, pattern, cursor)
      invariant count + Count(text, pattern, cursor) == Count(text, pattern, 0)
      decreases |text| - cursor
    {
      count := count + 1;
      cursor := next.value + |pattern|;
      next := FindFirst(text, pattern, cursor);
    }
  }

  /** The text of the file after the block was put in. */
  ghost function Upsert(content: string, begin: string, end: string, block: string): Result<string, MarkerError>
    requires begin != "" && end != ""
  {
    var replacement := TrimEnd(block);
    if Count(content, begin, 0) > 1 || Count(content, end, 0) > 1 then Failure(Duplicated)
    else
      match Find(content, begin, 0)
      case Some(start) => (
        match Find(content, end, start)
        case None => Failure(NoEnd)
        case Some(last) => Success(content[..start] + replacement + content[last + |end|..]))
      case None =>
        if Find(content, end, 0).Some? then Failure(NoBegin)
        else if Trim(content) == "" then Success(replacement + "\n")
        else Success(TrimEnd(content) + "\n\n" + replacement + "\n")
  }

  method UpsertManagedBlock(content: string, begin: string, end: string, block: string)
    returns (r: Result<string, MarkerError>)
    requires begin != "" && end != ""
    ensures r == Upsert(content, begin, end, block)
  {
    var replacement := TrimEnd(block);
    var beginCount := CountMatches(content, begin);
    var endCount := CountMatches(content, end);
    if beginCount > 1 || endCount > 1 {
      return Failure(Duplicated);
    }
    var start := FindFirst(content, begin, 0);
    if start.Some? {
      var relativeEnd := FindFirst(content[start.value..], end, 0);
      assert content[..start.value] + content[start.value..] == content;
      FindRight(content[..start.value], content[start.value..], end, start.value);
      if relativeEnd.None? {
        return Failure(NoEnd);
      }
      var finish := start.value + relativeEnd.value + |end|;
      var updated := content[..start.value];
      updated := updated + replacement;
      updated := updated + content[finish..];
      return Success(updated);
    }
    var stray := FindFirst(content, end, 0);
    if stray.Some? {
      return Failure(NoBegin);
    }
    if Trim(content) == "" {
      r := Success(replacement + "\n");
    } else {
      r := Success(TrimEnd(content) + "\n\n" + replacement + "\n");
    }
  }

  /** The block as it stands in a text, markers included. */
  ghost function Managed(content: string, begin: string, end: string): Option<string> {
    match Find(content, begin, 0)
    case None => None
    case Some(start) =>
      match Find(content, end, start)
      case None => None
      case Some(last) => Some(content[start..last + |end|])
  }

  ghost predicate NoLeadInside(m: string) {
    forall k :: 0 < k < |m| ==> m[k] != LEAD
  }

  ghost predicate OneLine(m: string) {
    forall k :: 0 <= k < |m| ==> m[k] != '\n'
  }

  /** A comment line that can be told apart wherever it stands: its only `#` is its first
      character, it has more to it than that, and it is one line without trailing white space. */
  ghost predicate Marker(m: string) {
    |m| > 1 && m[0] == LEAD && NoLeadInside(m) && OneLine(m) && !IsSpace(m[|m| - 1])
  }

  ghost predicate Lacks(text: string, pattern: string) {
    forall i :: !At(text, pattern, i)
  }

  ghost predicate OnlyAt(text: string, pattern: string, i: int) {
    At(text, pattern, i) && forall j :: At(text, pattern, j) ==> j == i
  }

  /** Two different marker texts, neither the start of the other. */
  ghost predicate Pair(begin: string, end: string) {
    Marker(begin) && Marker(end) && !(begin <= end) && !(end <= begin)
  }

  /** Two occurrences of a marker do not overlap. */
  lemma MarkersApart(text: string, m: string, i: int, j: int)
    requires Marker(m) && At(text, m, i) && At(text, m, j) && i < j
    ensures i + |m| <= j
  {
    if j < i + |m| {
      AtIndex(text, m, i, j);
      AtIndex(text, m, j, j);
    }
  }

  /** Counting decides whether a marker stands at most once. */
  lemma CountDecides(text: string, m: string)
    requires Marker(m)
    ensures Count(text, m, 0) <= 1 <==> (forall i, j :: At(text, m, i) && At(text, m, j) ==> i == j)
  {
    var first := Find(text, m, 0);
    if first.Some? {
      var second := Find(text, m, first.value + |m|);
      assert Count(text, m, 0) <= 1 <==> second.None?;
      forall i | At(text, m, i) ensures i == first.value || i >= first.value + |m| {
        if i > first.value { MarkersApart(text, m, first.value, i); }
      }
    }
  }

  /** Exactly when the block can be put in: the text has neither marker, or each exactly once and in
      order. */
  lemma UpsertSucceedsIff(content: string, begin: string, end: string, block: string)
    requires Pair(begin, end)
    ensures Upsert(content, begin, end, block).Success? <==>
            || (Lacks(content, begin) && Lacks(content, end))
            || (exists i, j :: i < j && OnlyAt(content, begin, i) && OnlyAt(content, end, j))
  {
    CountDecides(content, begin);
    CountDecides(content, end);
    if Upsert(content, begin, end, block).Success? && Find(content, begin, 0).Some? {
      var i, j := Find(content, begin, 0).value, Find(content, end, Find(content, begin, 0).value).value;
      MarkersDiffer(content, begin, end, i, j);
      assert OnlyAt(content, begin, i) && OnlyAt(content, end, j);
    }
  }

  lemma MarkersDiffer(text: string, begin: string, end: string, i: int, j: int)
    requires Pair(begin, end) && At(text, begin, i) && At(text, end, j) && i <= j
    ensures i + |begin| <= j
  {
    if i == j {
      if |begin| <= |end| {
        AtSame(text, begin, end, i);
      } else {
        AtSame(text, end, begin, i);
      }
    } else if j < i + |begin| {
      AtIndex(text, begin, i, j);
      AtIndex(text, end, j, j);
    }
  }

  /** And why it cannot: a marker that stands twice, a begin marker with no end marker behind it, an end
      marker without a begin marker. */
  lemma UpsertFailsAs(content: string, begin: string, end: string, block: string)
    requires Pair(begin, end) && Upsert(content, begin, end, block).Failure?
    ensures match Upsert(content, begin, end, block).error
            case Duplicated => exists m, i, j :: (m == begin || m == end) && i != j && At(content, m, i) && At(content, m, j)
            case NoEnd => exists i :: OnlyAt(content, begin, i) && forall j :: At(content, end, j) ==> j < i
            case NoBegin => Lacks(content, begin) && exists j :: OnlyAt(content, end, j)
  {
    CountDecides(content, begin);
    CountDecides(content, end);
    var start := Find(content, begin, 0);
    if Count(content, begin, 0) <= 1 && Count(content, end, 0) <= 1 {
      if start.Some? {
        assert OnlyAt(content, begin, start.value);
      } else {
        assert OnlyAt(content, end, Find(content, end, 0).value);
      }
    }
  }

  /** Where there is no block it is put behind the text, a blank line between, or becomes the text if
      that was blank. */
  lemma AppendedBehind(text: string, pad: string, begin: string, end: string, block: string)
    requires begin != "" && end != "" && AllSpace(pad) && (text != "" ==> !IsSpace(text[|text| - 1]))
    requires Lacks(text + pad, begin) && Lacks(text + pad, end)
    ensures Upsert(text + pad, begin, end, block)
         == Success((if text == "" then "" else text + "\n\n") + TrimEnd(block) + "\n")
  {
    hide TrimEnd, Trim;
    FindNone(text + pad, begin, 0);
    FindNone(text + pad, end, 0);
    TrimFacts(text + pad);
    if text == "" {
      assert "" + pad == pad && "" + TrimEnd(block) == TrimEnd(block);
    } else {
      TrimEndPadding(text, pad);
      TrimmedEnd(text);
      assert !IsSpace((text + pad)[|text| - 1]);
    }
  }

  lemma TrimmedEnd(text: string)
    requires text != "" && !IsSpace(text[|text| - 1])
    ensures TrimEnd(text) == text
  {}

  /** A block that opens with the begin marker, closes with the end marker, and has neither
      anywhere else. */
  ghost predicate Bracketed(r: string, begin: string, end: string) {
    |begin| + |end| <= |r| && OnlyAt(r, begin, 0) && OnlyAt(r, end, |r| - |end|)
  }

  /** What cannot straddle the edges of a block that ends with `end`: a pattern with no `#` after its
      first character, that starts with one without continuing `end`, or lacks `end`'s last one. */
  ghost predicate Unsplit(m: string, end: string) {
    && m != "" && end != "" && NoLeadInside(m)
    && ((m[0] == LEAD && !(end <= m && |end| < |m|)) || (m[0] != LEAD && end[|end| - 1] !in m))
  }

  /** An occurrence in `p + r + s` lies wholly in one of the three. */
  lemma Located(p: string, r: string, s: string, end: string, m: string, k: int)
    requires Marker(end) && |end| <= |r| && r[0] == LEAD && At(r, end, |r| - |end|)
    requires Unsplit(m, end) && At(p + r + s, m, k)
    ensures || (k + |m| <= |p| && At(p, m, k))
            || (|p| <= k && k + |m| <= |p| + |r| && At(r, m, k - |p|))
            || (|p| + |r| <= k && At(s, m, k - |p| - |r|))
  {
    var z := p + r + s;
    var last := |p| + |r| - |end|;
    assert z == p + (r + s);
    if k + |m| <= |p| {
      AtLeft(p, r + s, m, k);
    } else if k < |p| {
      AtIndex(z, m, k, |p|);
    } else if k + |m| <= |p| + |r| {
      AtLeft(p + r, s, m, k);
      AtRight(p, r, m, k);
    } else if |p| + |r| <= k {
      AtRight(p + r, s, m, k);
    } else {
      NoStraddleRight(p + r, s, end, m, k);
    }
  }

  lemma NoStraddleRight(a: string, s: string, end: string, m: string, k: int)
    requires Marker(end) && At(a, end, |a| - |end|)
    requires Unsplit(m, end)
    requires k < |a| < k + |m|
    ensures !At(a + s, m, k)
  {
    var z := a + s;
    var last := |a| - |end|;
    if At(z, m, k) {
      forall q | last <= q < |a| ensures z[q] == end[q - last] {
        AtIndex(a, end, last, q);
      }
      if k < last {
        AtIndex(z, m, k, last);
      } else if m[0] != LEAD {
        AtIndex(z, m, k, |a| - 1);
      } else if k > last {
        AtIndex(z, m, k, k);
      } else {
        AtLeft(a, s, end, last);
        AtSame(z, end, m, k);
      }
    }
  }

  /** A text with exactly one managed block, `r`, between `p` and `s`. */
  ghost predicate Installed(p: string, r: string, s: string, begin: string, end: string) {
    && Bracketed(r, begin, end)
    && Lacks(p, begin) && Lacks(p, end) && Lacks(s, begin) && Lacks(s, end)
  }

  lemma MarkersUnsplit(begin: string, end: string)
    requires Pair(begin, end)
    ensures Unsplit(begin, end) && Unsplit(end, end)
  {}

  lemma BracketedLead(r: string, begin: string, end: string)
    requires Pair(begin, end) && Bracketed(r, begin, end)
    ensures r[0] == LEAD && TrimEnd(r) == r
  {
    AtIndex(r, begin, 0, 0);
    AtIndex(r, end, |r| - |end|, |r| - 1);
  }

  /** In such a text the markers stand once each, where the block puts them. */
  lemma InstalledMarkers(p: string, r: string, s: string, begin: string, end: string)
    requires Pair(begin, end) && Installed(p, r, s, begin, end)
    ensures OnlyAt(p + r + s, begin, |p|)
    ensures OnlyAt(p + r + s, end, |p| + |r| - |end|)
  {
    var z := p + r + s;
    MarkersUnsplit(begin, end);
    BracketedLead(r, begin, end);
    forall k | At(z, begin, k) ensures k == |p| {
      Located(p, r, s, end, begin, k);
    }
    forall k | At(z, end, k) ensures k == |p| + |r| - |end| {
      Located(p, r, s, end, end, k);
    }
    assert z == p + (r + s);
    AtRight(p, r + s, begin, |p|);
    AtLeft(r, s, begin, 0);
    AtRight(p, r + s, end, |p| + |r| - |end|);
    AtLeft(r, s, end, |r| - |end|);
  }

  /** Whatever block stands in such a text, putting one in replaces it and nothing else. */
  lemma InstalledReplaced(p: string, r: string, s: string, begin: string, end: string, block: string)
    requires Pair(begin, end) && Installed(p, r, s, begin, end)
    ensures Upsert(p + r + s, begin, end, block) == Success(p + TrimEnd(block) + s)
    ensures Managed(p + r + s, begin, end) == Some(r)
  {
    hide TrimEnd;
    var z := p + r + s;
    InstalledMarkers(p, r, s, begin, end);
    CountDecides(z, begin);
    CountDecides(z, end);
    FindAt(z, begin, 0, |p|);
    FindAt(z, end, |p|, |p| + |r| - |end|);
    assert z[..|p|] == p;
    assert z[|p| + |r|..] == s;
    assert z[|p|..|p| + |r|] == r;
  }

  /** Putting the same block in again changes nothing, and reading it back gives it. */
  lemma InstalledIsFixed(p: string, r: string, s: string, begin: string, end: string, block: string)
    requires Pair(begin, end) && Installed(p, r, s, begin, end)
    requires TrimEnd(block) == r
    ensures Upsert(p + r + s, begin, end, block) == Success(p + r + s)
    ensures Managed(p + r + s, begin, end) == Some(r)
  {
    hide Upsert, Managed, Installed, TrimEnd, Pair;
    InstalledReplaced(p, r, s, begin, end, block);
  }

  /** Text cut out around an occurrence that is the only one has no other. */
  lemma CutLacks(y: string, m: string, i: int, from: nat, to: nat)
    requires m != "" && OnlyAt(y, m, i) && from <= to <= |y|
    requires to < i + |m| || i < from
    ensures Lacks(y[from..to], m)
  {
    forall k ensures !At(y[from..to], m, k) {
      if At(y[from..to], m, k) {
        AtCut(y, from, to, m, k);
      }
    }
  }

  /** A marker in a text that ends with line breaks stands before them. */
  lemma LineLacks(y: string, t: string, breaks: string, m: string)
    requires m != "" && OneLine(m) && t <= y && Lacks(y, m)
    requires forall k :: 0 <= k < |breaks| ==> breaks[k] == '\n'
    ensures Lacks(t + breaks, m)
  {
    assert y == t + y[|t|..];
    forall k ensures !At(t + breaks, m, k) {
      if At(t + breaks, m, k) {
        if k + |m| <= |t| {
          AtLeft(t, breaks, m, k);
          AtLeft(t, y[|t|..], m, k);
        } else {
          AtIndex(t + breaks, m, k, k + |m| - 1);
        }
      }
    }
  }

  /** What surrounds the block afterwards: the user's text, kept. */
  ghost function Before(content: string, begin: string): string {
    match Find(content, begin, 0)
    case Some(start) => content[..start]
    case None => if Trim(content) == "" then "" else TrimEnd(content) + "\n\n"
  }

  ghost function After(content: string, begin: string, end: string): string {
    match Find(content, begin, 0)
    case Some(start) => (match Find(content, end, start) case Some(last) => content[last + |end|..] case None => "")
    case None => "\n"
  }

  lemma ReplacementCuts(content: string, begin: string, end: string, block: string, start: nat)
    requires begin != "" && end != ""
    requires Upsert(content, begin, end, block).Success? && Find(content, begin, 0) == Some(start)
    ensures Count(content, begin, 0) <= 1 && Count(content, end, 0) <= 1
    ensures Find(content, end, start).Some?
    ensures var last := Find(content, end, start).value;
            Before(content, begin) == content[0..start] &&
            After(content, begin, end) == content[last + |end|..|content|]
  {
    hide Count, TrimEnd, Trim;
    var last := Find(content, end, start).value;
    assert last + |end| <= |content|;
    assert content[last + |end|..|content|] == content[last + |end|..];
  }

  lemma ReplacedIsInstalled(content: string, begin: string, end: string, block: string, start: nat)
    requires Pair(begin, end) && Bracketed(TrimEnd(block), begin, end)
    requires Upsert(content, begin, end, block).Success? && Find(content, begin, 0) == Some(start)
    ensures Installed(Before(content, begin), TrimEnd(block), After(content, begin, end), begin, end)
  {
    hide Count, TrimEnd, Trim, Bracketed, NoLeadInside, OneLine, Upsert, Before, After, Lacks;
    ReplacementCuts(content, begin, end, block, start);
    CountDecides(content, begin);
    CountDecides(content, end);
    var last := Find(content, end, start).value;
    MarkersDiffer(content, begin, end, start, last);
    CutLacks(content, begin, start, 0, start);
    CutLacks(content, end, last, 0, start);
    CutLacks(content, begin, start, last + |end|, |content|);
    CutLacks(content, end, last, last + |end|, |content|);
  }

  lemma AppendedIsInstalled(content: string, begin: string, end: string, block: string)
    requires Pair(begin, end) && Bracketed(TrimEnd(block), begin, end)
    requires Upsert(content, begin, end, block).Success? && Find(content, begin, 0) == None
    ensures Installed(Before(content, begin), TrimEnd(block), After(content, begin, end), begin, end)
  {
    hide Count, TrimEnd, Trim, Bracketed;
    LineLacks(content, "", "\n", begin);
    LineLacks(content, "", "\n", end);
    LineLacks(content, "", "", begin);
    LineLacks(content, "", "", end);
    LineLacks(content, TrimEnd(content), "\n\n", begin);
    LineLacks(content, TrimEnd(content), "\n\n", end);
  }

  /** Putting a block in leaves exactly one, with the user's text before and after it kept: verbatim
      around a block that is replaced, and up to trailing white space before one that is appended. */
  lemma UpsertInstalls(content: string, begin: string, end: string, block: string)
    requires Pair(begin, end) && Bracketed(TrimEnd(block), begin, end)
    requires Upsert(content, begin, end, block).Success?
    ensures var p, s := Before(content, begin), After(content, begin, end);
            Upsert(content, begin, end, block).value == p + TrimEnd(block) + s &&
            Installed(p, TrimEnd(block), s, begin, end)
  {
    hide Count, TrimEnd, Trim, Installed, Bracketed, Pair;
    match Find(content, begin, 0) {
      case Some(start) => ReplacedIsInstalled(content, begin, end, block, start);
      case None =>
        AppendedIsInstalled(content, begin, end, block);
        assert "" + TrimEnd(block) + "\n" == TrimEnd(block) + "\n";
    }
  }
}
