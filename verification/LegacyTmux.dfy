/** Deleting the legacy passthrough block from a tmux configuration, wherever it stands and however
    often. */
module LegacyTmux {

  import opened Wrappers
  import opened Sequences

  const BEGIN_FRONT := "# TWeb browser passthrough mode."
  const BEGIN_BACK := " Every unmatched key is forwarded" + " to the pane,"
  const LEGACY_BEGIN := BEGIN_FRONT + BEGIN_BACK
  const END_FRONT := "bind-key -T tweb-pass WheelDownPane"
  const END_BACK := " send-keys -M \\; switch-client -T tweb-pass"
  const LEGACY_END := END_FRONT + END_BACK

  /** A begin marker with an end marker at or after it. */
  ghost predicate HasBlock(text: string, begin: string, end: string) {
    exists i, j :: i <= j && At(text, begin, i) && At(text, end, j)
  }

  /** The first block a pass deletes: from the first begin marker to the end of the first end marker
      after it. */
  ghost function FirstBlock(text: string, begin: string, end: string): (r: Option<(nat, nat)>)
    ensures r.Some? ==> r.value.0 + |end| <= r.value.1 <= |text|
    ensures r.Some? <==> HasBlock(text, begin, end)
  {
    match Find(text, begin, 0)
    case None => None
    case Some(start) =>
      match Find(text, end, start)
      case None => None
      case Some(last) => Some((start, last + |end|))
  }

  ghost function Migrate(text: string, begin: string, end: string): string
    requires end != ""
    decreases |text|
  {
    match FirstBlock(text, begin, end)
    case None => text
    case Some((start, finish)) => Migrate(text[..start] + text[finish..], begin, end)
  }

  lemma MarkersThere()
    ensures LEGACY_BEGIN != "" && LEGACY_END != ""
  {}

  /** The loop, deleting in place until no block is left. */
  method MigrateLegacyTmux(content: string) returns (migrated: string)
    ensures migrated == Migrate(content, LEGACY_BEGIN, LEGACY_END)
  {
    hide LEGACY_BEGIN, LEGACY_END, Migrate;
    MarkersThere();
    migrated := content;
    while true
      invariant Migrate(migrated, LEGACY_BEGIN, LEGACY_END) == Migrate(content, LEGACY_BEGIN, LEGACY_END)
      decreases |migrated|
    {
      var start := FindFirst(migrated, LEGACY_BEGIN, 0);
      if start.None? {
        MigrateFixed(migrated, LEGACY_BEGIN, LEGACY_END);
        break;
      }
      var relativeEnd := FindFirst(migrated[start.value..], LEGACY_END, 0);
      assert migrated[..start.value] + migrated[start.value..] == migrated;
      FindRight(migrated[..start.value], migrated[start.value..], LEGACY_END, start.value);
      if relativeEnd.None? {
        MigrateFixed(migrated, LEGACY_BEGIN, LEGACY_END);
        break;
      }
      var finish := start.value + relativeEnd.value + |LEGACY_END|;
      MigrateStep(migrated, LEGACY_BEGIN, LEGACY_END, start.value, finish);
      migrated := migrated[..start.value] + migrated[finish..];
    }
  }

  /** `a` is `b` with some characters left out. */
  ghost predicate Subsequence(a: string, b: string) {
    if a == "" then true
    else if b == "" then false
    else (a[0] == b[0] && Subsequence(a[1..], b[1..])) || Subsequence(a, b[1..])
  }

  lemma {:induction false} SubsequenceTransitive(a: string, b: string, c: string)
    requires Subsequence(a, b) && Subsequence(b, c)
    ensures Subsequence(a, c)
    decreases |b| + |c|
  {
    if a != "" {
      if b[0] == c[0] && Subsequence(b[1..], c[1..]) {
        if a[0] == b[0] && Subsequence(a[1..], b[1..]) {
          SubsequenceTransitive(a[1..], b[1..], c[1..]);
        } else {
          SubsequenceTransitive(a, b[1..], c[1..]);
        }
      } else {
        SubsequenceTransitive(a, b, c[1..]);
      }
    }
  }

  lemma {:induction false} SubsequenceCut(p: string, m: string, s: string)
    ensures Subsequence(p + s, p + m + s)
  {
    if p != "" {
      assert (p + s)[1..] == p[1..] + s && (p + m + s)[1..] == p[1..] + m + s;
      SubsequenceCut(p[1..], m, s);
    } else if m != "" {
      assert (p + m + s)[1..] == p + m[1..] + s;
      SubsequenceCut(p, m[1..], s);
    } else {
      assert p + m + s == p + s;
      SubsequenceSelf(p + s);
    }
  }

  lemma {:induction false} SubsequenceSelf(a: string)
    ensures Subsequence(a, a)
  {
    if a != "" {
      SubsequenceSelf(a[1..]);
    }
  }

  /** What migration leaves: the input with characters left out and no block in it, not even one
      that a deletion joined together. */
  lemma {:induction false} MigrateLeaves(text: string, begin: string, end: string)
    requires end != ""
    ensures Subsequence(Migrate(text, begin, end), text)
    ensures !HasBlock(Migrate(text, begin, end), begin, end)
    decreases |text|
  {
    hide Subsequence;
    var block := FirstBlock(text, begin, end);
    if block.Some? {
      var (start, finish) := block.value;
      var next := text[..start] + text[finish..];
      MigrateLeaves(next, begin, end);
      assert start <= finish;
      SubsequenceCut(text[..start], text[start..finish], text[finish..]);
      assert text == text[..start] + text[start..finish] + text[finish..];
      SubsequenceTransitive(Migrate(text, begin, end), next, text);
    } else {
      SubsequenceSelf(text);
    }
  }

  /** Migration changes a text exactly when there is a block in it. */
  lemma MigrateChangesIff(text: string, begin: string, end: string)
    requires end != ""
    ensures Migrate(text, begin, end) != text <==> HasBlock(text, begin, end)
  {
    MigrateLeaves(text, begin, end);
  }

  lemma MigrateIdempotent(text: string, begin: string, end: string)
    requires end != ""
    ensures Migrate(Migrate(text, begin, end), begin, end) == Migrate(text, begin, end)
  {
    MigrateLeaves(text, begin, end);
  }

  // What is kept.

  /** A block as an earlier release wrote it: from the begin marker to the first end marker. */
  ghost predicate IsBlock(block: string, begin: string, end: string) {
    begin <= block && |end| <= |block| && Find(block, end, 0) == Some(|block| - |end|)
  }

  /** Text that no begin marker begins in, and that none runs out of. */
  ghost predicate Before(text: string, begin: string) {
    (forall k :: !At(text, begin, k)) && (text == "" || text[|text| - 1] == '\n')
  }

  /** A one-line marker that is not in a text does not run out of it over a line break. */
  lemma NotOutOf(p: string, s: string, begin: string, k: int)
    requires begin != "" && '\n' !in begin && Before(p, begin) && At(p + s, begin, k)
    ensures |p| <= k && At(s, begin, k - |p|)
  {
    if k < |p| {
      if k + |begin| <= |p| {
        AtLeft(p, s, begin, k);
      } else {
        AtIndex(p + s, begin, k, |p| - 1);
      }
    } else {
      AtRight(p, s, begin, k);
    }
  }

  lemma FirstIsBlock(p: string, block: string, s: string, begin: string, end: string)
    requires begin != "" && '\n' !in begin && Before(p, begin) && IsBlock(block, begin, end)
    ensures FirstBlock(p + block + s, begin, end) == Some((|p|, |p| + |block|))
  {
    var text, tail := p + block + s, block + s;
    assert text == p + tail;
    assert tail[0..|begin|] == block[..|begin|] == begin;
    AtRight(p, tail, begin, |p|);
    forall k | 0 <= k < |p| ensures !At(text, begin, k) {
      if At(text, begin, k) {
        NotOutOf(p, tail, begin, k);
      }
    }
    FindAt(text, begin, 0, |p|);
    FindLeft(block, s, end, 0);
    FindRight(p, tail, end, |p|);
  }

  lemma MigrateStep(text: string, begin: string, end: string, start: nat, finish: nat)
    requires end != "" && FirstBlock(text, begin, end) == Some((start, finish))
    ensures Migrate(text, begin, end) == Migrate(text[..start] + text[finish..], begin, end)
  {}

  lemma MigrateFixed(text: string, begin: string, end: string)
    requires end != "" && FirstBlock(text, begin, end).None?
    ensures Migrate(text, begin, end) == text
  {}

  /** Text with blocks between its parts. */
  function Woven(parts: seq<string>, blocks: seq<string>): string
    requires |parts| == |blocks| + 1
  {
    if blocks == [] then parts[0] else parts[0] + blocks[0] + Woven(parts[1..], blocks[1..])
  }

  lemma WovenStep(parts: seq<string>, blocks: seq<string>)
    requires |parts| == |blocks| + 1
    ensures blocks == [] ==> Woven(parts, blocks) == parts[0] == Flatten(parts)
    ensures blocks != [] ==> Woven(parts, blocks) == parts[0] + blocks[0] + Woven(parts[1..], blocks[1..])
    ensures Flatten(parts) == parts[0] + Flatten(parts[1..])
  {
    if blocks == [] {
      assert parts == [parts[0]];
      FlattenOne(parts[0]);
    }
  }

  /** Blocks that stand on lines of their own, in text that has no other. */
  ghost predicate BlocksBetween(parts: seq<string>, blocks: seq<string>, begin: string, end: string) {
    && |parts| == |blocks| + 1
    && (forall i :: 0 <= i < |blocks| ==> IsBlock(blocks[i], begin, end) && Before(parts[i], begin))
    && !HasBlock(parts[|blocks|], begin, end)
  }

  lemma BeforeBoth(a: string, b: string, begin: string)
    requires begin != "" && '\n' !in begin && Before(a, begin) && Before(b, begin)
    ensures Before(a + b, begin)
  {
    forall k ensures !At(a + b, begin, k) {
      if At(a + b, begin, k) {
        NotOutOf(a, b, begin, k);
      }
    }
  }

  lemma {:induction false} MigrateBehind(p: string, parts: seq<string>, blocks: seq<string>, begin: string, end: string)
    requires begin != "" && '\n' !in begin && end != ""
    requires Before(p, begin) && BlocksBetween(parts, blocks, begin, end)
    ensures Migrate(p + Woven(parts, blocks), begin, end) == p + Flatten(parts)
    decreases |blocks|
  {
    hide Migrate, IsBlock, Before, HasBlock, FirstBlock, Flatten, Woven;
    WovenStep(parts, blocks);
    if blocks == [] {
      NoBlockBehind(p, parts[0], begin, end);
      MigrateFixed(p + parts[0], begin, end);
    } else {
      var q, block, rest := p + parts[0], blocks[0], Woven(parts[1..], blocks[1..]);
      BeforeBoth(p, parts[0], begin);
      FirstIsBlock(q, block, rest, begin, end);
      var text := p + Woven(parts, blocks);
      assert text == q + block + rest;
      MigrateStep(text, begin, end, |q|, |q| + |block|);
      assert text[..|q|] + text[|q| + |block|..] == q + rest;
      assert BlocksBetween(parts[1..], blocks[1..], begin, end);
      MigrateBehind(q, parts[1..], blocks[1..], begin, end);
      assert p + (parts[0] + Flatten(parts[1..])) == q + Flatten(parts[1..]);
    }
  }

  lemma NoBlockBehind(p: string, s: string, begin: string, end: string)
    requires begin != "" && '\n' !in begin && Before(p, begin) && !HasBlock(s, begin, end)
    ensures !HasBlock(p + s, begin, end)
  {
    forall i, j | i <= j && At(p + s, begin, i) && At(p + s, end, j) ensures false {
      NotOutOf(p, s, begin, i);
      AtRight(p, s, end, j);
    }
  }

  /** Migration takes the blocks and keeps everything between them, however many there are. */
  lemma MigrateKeepsRest(parts: seq<string>, blocks: seq<string>, begin: string, end: string)
    requires begin != "" && '\n' !in begin && end != "" && BlocksBetween(parts, blocks, begin, end)
    ensures Migrate(Woven(parts, blocks), begin, end) == Flatten(parts)
  {
    assert Before("", begin) by {
      forall k ensures !At("", begin, k) {}
    }
    MigrateBehind("", parts, blocks, begin, end);
    assert "" + Woven(parts, blocks) == Woven(parts, blocks) && "" + Flatten(parts) == Flatten(parts);
  }

  /** One block on lines of its own. */
  lemma MigrateCuts(p: string, block: string, s: string, begin: string, end: string)
    requires begin != "" && '\n' !in begin && end != "" && Before(p, begin) && IsBlock(block, begin, end)
    requires forall k :: !At(s, end, k)
    ensures Migrate(p + block + s, begin, end) == p + s
  {
    var parts, blocks := [p, s], [block];
    assert parts[1..] == [s] && blocks[1..] == [];
    assert !HasBlock(s, begin, end);
    MigrateKeepsRest(parts, blocks, begin, end);
    FlattenOne(s);
    assert Woven(parts, blocks) == p + block + s;
  }

  /** No end marker begins inside a begin marker. */
  ghost predicate Apart(begin: string, end: string) {
    forall text, i, j :: At(text, begin, i) && At(text, end, j) && i <= j ==> i + |begin| <= j
  }

  /** The longer text is the shorter one with a block put in somewhere. */
  ghost predicate PutIn(shorter: string, longer: string, n: nat, block: string, begin: string, end: string) {
    n <= |shorter| && IsBlock(block, begin, end) && longer == shorter[..n] + block + shorter[n..]
  }

  ghost predicate Grows(shorter: string, longer: string, begin: string, end: string) {
    exists n, block :: PutIn(shorter, longer, n, block, begin, end)
  }

  /** From one text to another by putting in blocks, one after the other. */
  ghost predicate Restores(steps: seq<string>, begin: string, end: string) {
    steps != [] && forall k :: 0 <= k < |steps| - 1 ==> Grows(steps[k], steps[k + 1], begin, end)
  }

  /** Nothing but blocks is taken: the text is what migration leaves with blocks put back into it. */
  lemma {:induction false} MigrateTakesBlocks(text: string, begin: string, end: string) returns (steps: seq<string>)
    requires end != "" && Apart(begin, end)
    ensures Restores(steps, begin, end)
    ensures steps[0] == Migrate(text, begin, end) && steps[|steps| - 1] == text
    decreases |text|
  {
    hide PutIn, Apart, Migrate, FirstBlock;
    var first := FirstBlock(text, begin, end);
    if first.None? {
      MigrateFixed(text, begin, end);
      steps := [text];
    } else {
      var (start, finish) := first.value;
      var next := text[..start] + text[finish..];
      MigrateStep(text, begin, end, start, finish);
      var before := MigrateTakesBlocks(next, begin, end);
      CutIsBlock(text, begin, end, start, finish);
      steps := before + [text];
      assert Grows(next, text, begin, end);
      forall k | 0 <= k < |steps| - 1 ensures Grows(steps[k], steps[k + 1], begin, end) {
        if k + 1 < |before| {
          assert Grows(before[k], before[k + 1], begin, end);
        }
      }
    }
  }

  lemma CutIsBlock(text: string, begin: string, end: string, start: nat, finish: nat)
    requires end != "" && Apart(begin, end) && FirstBlock(text, begin, end) == Some((start, finish))
    ensures PutIn(text[..start] + text[finish..], text, start, text[start..finish], begin, end)
  {
    var block, last := text[start..finish], finish - |end|;
    assert At(text, begin, start) && At(text, end, last);
    assert start + |begin| <= last;
    BlockOf(text, begin, end, start, last);
    hide IsBlock, FirstBlock;
    assert text == text[..start] + block + text[finish..];
    var shorter := text[..start] + text[finish..];
    assert shorter[..start] == text[..start] && shorter[start..] == text[finish..];
  }

  lemma BlockOf(text: string, begin: string, end: string, start: nat, last: nat)
    requires end != "" && At(text, begin, start) && At(text, end, last) && start + |begin| <= last
    requires forall j :: start <= j < last ==> !At(text, end, j)
    ensures IsBlock(text[start..last + |end|], begin, end)
  {
    var block := text[start..last + |end|];
    assert block[..|begin|] == text[start..start + |begin|] == begin;
    assert block[last - start..] == text[last..last + |end|] == end;
    assert At(block, end, last - start);
    forall j | 0 <= j < last - start ensures !At(block, end, j) {
      if At(block, end, j) {
        AtCut(text, start, last + |end|, end, j);
      }
    }
    FindAt(block, end, 0, last - start);
  }

  /** The program's markers. */
  lemma LegacyApart()
    ensures Apart(LEGACY_BEGIN, LEGACY_END)
    ensures LEGACY_BEGIN != "" && LEGACY_END != "" && '\n' !in LEGACY_BEGIN
  {
    BeginPieces();
    assert LEGACY_END[0] == 'b' && LEGACY_END[1] == 'i';
    hide LEGACY_END, BEGIN_FRONT, BEGIN_BACK;
    var begin := LEGACY_BEGIN;
    assert begin == BEGIN_FRONT + BEGIN_BACK;
    assert forall c :: 0 <= c < |begin| && begin[c] == 'b' ==> c + 1 < |begin| && begin[c + 1] != 'i';
    forall text, i, j | At(text, begin, i) && At(text, LEGACY_END, j) && i <= j ensures i + |begin| <= j {
      if j < i + |begin| {
        AtIndex(text, begin, i, j);
        if j + 1 < i + |begin| {
          AtIndex(text, begin, i, j + 1);
          AtIndex(text, LEGACY_END, j, j + 1);
        }
        AtIndex(text, LEGACY_END, j, j);
      }
    }
  }

  /** Wherever there is a `b`, something else than an `i` follows. */
  lemma BeginPieces()
    ensures BEGIN_FRONT != "" && BEGIN_BACK != "" && BEGIN_BACK[|BEGIN_BACK| - 1] != 'b'
    ensures forall k :: 0 <= k < |BEGIN_FRONT| ==> BEGIN_FRONT[k] != '\n' && (BEGIN_FRONT[k] == 'b' ==> k == 5 || k == 7)
    ensures |BEGIN_FRONT| > 8 && BEGIN_FRONT[6] != 'i' && BEGIN_FRONT[8] != 'i'
    ensures forall k :: 0 <= k < |BEGIN_BACK| ==> BEGIN_BACK[k] != '\n' && BEGIN_BACK[k] != 'b'
  {}

  /** One pass is not always enough: what is left of a deletion can be a new block. */
  lemma DeletionCanJoin()
    ensures FirstBlock("aabzbz", "ab", "z") == Some((1, 4))
    ensures HasBlock("aabzbz"[..1] + "aabzbz"[4..], "ab", "z")
  {
    var text := "aabzbz";
    assert text[1..3] == "ab" && text[3..4] == "z";
    assert text[0] == 'a' && text[1] == 'a' && text[2] == 'b';
    assert At(text, "ab", 1) && At(text, "z", 3);
    assert !At(text, "ab", 0) by { if At(text, "ab", 0) { AtIndex(text, "ab", 0, 1); } }
    assert !At(text, "z", 1) by { if At(text, "z", 1) { AtIndex(text, "z", 1, 1); } }
    assert !At(text, "z", 2) by { if At(text, "z", 2) { AtIndex(text, "z", 2, 2); } }
    FindAt(text, "ab", 0, 1);
    FindAt(text, "z", 1, 3);
    var left := text[..1] + text[4..];
    assert left[0..2] == "ab" && left[2..3] == "z";
    assert At(left, "ab", 0) && At(left, "z", 2);
  }
}
