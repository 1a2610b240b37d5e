/** Walking a path through a tree without symbolic links, before and after normalising it. */
module PathWalk {

  import opened Wrappers
  import opened Paths

  datatype Kind = Directory | File

  type Tree = map<Place, Kind>

  /** The root is a directory and everything else is in one. */
  ghost predicate Valid(tree: Tree) {
    && IsDirectory(tree, [])
    && forall place :: place in tree && place != [] ==> IsDirectory(tree, place[..|place| - 1])
  }

  predicate IsDirectory(tree: Tree, place: Place) {
    place in tree && tree[place] == Directory
  }

  /** Every step but the last has to lead to a directory, and the last to something. */
  function Walk(tree: Tree, from: Place, p: Path): Option<Place>
    decreases |p|
  {
    if p == [] then Some(from)
    else if !IsDirectory(tree, from) || Go(from, p[0]) !in tree then None
    else Walk(tree, Go(from, p[0]), p[1..])
  }

  lemma {:induction false} WalkAppend(tree: Tree, from: Place, p: Path, q: Path)
    ensures Walk(tree, from, p + q)
         == match Walk(tree, from, p)
            case None => None
            case Some(place) => Walk(tree, place, q)
    decreases |p|
  {
    if p == [] {
      assert p + q == q;
    } else {
      assert (p + q)[1..] == p[1..] + q;
      if IsDirectory(tree, from) && Go(from, p[0]) in tree {
        WalkAppend(tree, Go(from, p[0]), p[1..], q);
      }
    }
  }

  /** A walk that arrives, arrives where the path says. */
  lemma {:induction false} WalkIsLexical(tree: Tree, from: Place, p: Path)
    ensures Walk(tree, from, p).Some? ==> Walk(tree, from, p).value == Lexical(from, p)
    decreases |p|
  {
    if p != [] && IsDirectory(tree, from) && Go(from, p[0]) in tree {
      WalkIsLexical(tree, Go(from, p[0]), p[1..]);
    }
  }

  /** Everything above a place that exists is a directory. */
  lemma {:induction false} AboveIsDirectory(tree: Tree, place: Place, n: nat)
    requires Valid(tree) && place in tree && n < |place|
    ensures IsDirectory(tree, place[..n])
    decreases |place| - n
  {
    if n == |place| - 1 {
    } else {
      AboveIsDirectory(tree, place, n + 1);
      var up := place[..n + 1];
      assert up in tree && up != [] && up[..|up| - 1] == place[..n];
    }
  }

  lemma WalkOne(tree: Tree, from: Place, p: Path, c: Component)
    ensures Walk(tree, from, p + [c])
         == match Walk(tree, from, p)
            case None => None
            case Some(place) =>
              if !IsDirectory(tree, place) || Go(place, c) !in tree then None else Some(Go(place, c))
  {
    WalkAppend(tree, from, p, [c]);
    assert [c][1..] == [];
  }

  lemma RootWalks(tree: Tree, from: Place)
    requires Valid(tree) && IsDirectory(tree, from)
    ensures Walk(tree, from, [Root]) == Some([])
  {
    assert [Root][1..] == [];
  }

  /** A name that was walked and a `..` behind it lead back to where the name was walked from. */
  lemma BackWalks(tree: Tree, from: Place, init: Path, name: string)
    requires Walk(tree, from, init + [Normal(name)] + [Parent]).Some?
    ensures Walk(tree, from, init) == Walk(tree, from, init + [Normal(name)] + [Parent])
  {
    WalkOne(tree, from, init + [Normal(name)], Parent);
    WalkOne(tree, from, init, Normal(name));
    var above := Walk(tree, from, init).value;
    assert (above + [name])[..|above|] == above;
  }

  /** One step of normalising: if the path so far is walked and so is one more component, so is what
      the step makes of it. */
  lemma StepWalks(tree: Tree, from: Place, done: Path, c: Component)
    requires Valid(tree) && IsDirectory(tree, from) && IsNormal(done)
    requires Walk(tree, from, done + [c]).Some?
    ensures Walk(tree, from, NormalizeStep(done, c)) == Walk(tree, from, done + [c])
  {
    hide Lexical, Walk, Valid, IsDirectory;
    WalkOne(tree, from, done, c);
    RootWalks(tree, from);
    if c == Parent && HasFileName(done) {
      var last := |done| - 1;
      assert done == done[..last] + [Normal(done[last].name)];
      BackWalks(tree, from, done[..last], done[last].name);
    } else if c == Parent && HasRoot(done) {
      if |done| > 1 {
        RootedNames(done, |done| - 1);
      }
      assert done == [Root];
    }
  }

  lemma {:induction false} NormalizeFromWalks(tree: Tree, from: Place, done: Path, p: Path)
    requires Valid(tree) && IsDirectory(tree, from) && IsNormal(done)
    requires Walk(tree, from, done + p).Some?
    ensures Walk(tree, from, NormalizeFrom(done, p)) == Walk(tree, from, done + p)
    decreases |p|
  {
    hide Walk, Lexical, NormalizeStep, Valid, IsNormal;
    if p == [] {
      assert done + p == done;
      FromNothing(done);
    } else {
      var next := NormalizeStep(done, p[0]);
      assert done + p == (done + [p[0]]) + p[1..];
      WalkAppend(tree, from, done + [p[0]], p[1..]);
      StepWalks(tree, from, done, p[0]);
      StepMeans(from, done, p[0]);
      WalkAppend(tree, from, next, p[1..]);
      NormalizeFromWalks(tree, from, next, p[1..]);
    }
  }

  lemma FromNothing(done: Path)
    ensures NormalizeFrom(done, []) == done
  {}

  /** Normalising preserves meaning: wherever the original path arrives, from any directory of any
      tree, the normalised one arrives too, at the same place. */
  lemma NormalizedWalks(tree: Tree, from: Place, p: Path)
    requires Valid(tree) && IsDirectory(tree, from)
    requires Walk(tree, from, p).Some?
    ensures Walk(tree, from, Normalized(p)) == Walk(tree, from, p)
  {
    assert [] + p == p;
    NormalizeFromWalks(tree, from, [], p);
  }

  /** The places the path names on its way are directories, up to the last. */
  ghost predicate PassesDirectories(tree: Tree, from: Place, p: Path) {
    forall k :: 0 <= k < |p| ==> IsDirectory(tree, Lexical(from, p[..k]))
  }

  lemma {:induction false} WalksIff(tree: Tree, from: Place, p: Path)
    requires from in tree
    ensures Walk(tree, from, p).Some? <==> PassesDirectories(tree, from, p) && Lexical(from, p) in tree
    decreases |p|
  {
    if p != [] {
      var init, last := p[..|p| - 1], p[|p| - 1];
      assert p == init + [last];
      WalkOne(tree, from, init, last);
      WalksIff(tree, from, init);
      WalkIsLexical(tree, from, init);
      LexicalPush(from, init, last);
      assert forall k :: 0 <= k < |init| ==> init[..k] == p[..k];
      assert p[..|p| - 1] == init;
      if Walk(tree, from, p).Some? {
        forall k | 0 <= k < |p| ensures IsDirectory(tree, Lexical(from, p[..k])) {
          if k < |init| {
            assert p[..k] == init[..k];
          }
        }
      }
    }
  }

  /** Where the path turns back or stands still, there is a directory. */
  ghost predicate DetoursExist(tree: Tree, from: Place, p: Path) {
    forall k :: 0 <= k < |p| && (p[k] == Parent || p[k] == Cur) ==> IsDirectory(tree, Lexical(from, p[..k]))
  }

  /** From the end backwards: a place that a name was appended to, with something there, is a
      directory. */
  lemma {:induction false} PlaceBefore(tree: Tree, from: Place, p: Path, k: nat)
    requires Valid(tree) && IsDirectory(tree, from) && WellFormed(p) && k < |p|
    requires Lexical(from, p) in tree && DetoursExist(tree, from, p)
    ensures IsDirectory(tree, Lexical(from, p[..k]))
    decreases |p| - k
  {
    hide Lexical;
    var place := Lexical(from, p[..k]);
    assert p[..k + 1] == p[..k] + [p[k]];
    LexicalPush(from, p[..k], p[k]);
    if k + 1 < |p| {
      PlaceBefore(tree, from, p, k + 1);
    } else {
      assert p[..k + 1] == p;
    }
    assert Go(place, p[k]) in tree;
    if p[k].Normal? {
      var after := place + [p[k].name];
      assert after[..|after| - 1] == place;
    } else if p[k] == Root {
      assert k == 0 && p[..0] == [];
      LexicalNowhere(from);
    }
  }

  lemma LexicalNowhere(from: Place)
    ensures Lexical(from, []) == from
  {}

  /** A path arrives if and only if there is something where it leads and its detours are there. */
  lemma WalksIffDetoursExist(tree: Tree, from: Place, p: Path)
    requires Valid(tree) && IsDirectory(tree, from) && WellFormed(p)
    ensures Walk(tree, from, p).Some? <==> Lexical(from, p) in tree && DetoursExist(tree, from, p)
  {
    hide Lexical, Walk;
    WalksIff(tree, from, p);
    if Lexical(from, p) in tree && DetoursExist(tree, from, p) {
      forall k | 0 <= k < |p| ensures IsDirectory(tree, Lexical(from, p[..k])) {
        PlaceBefore(tree, from, p, k);
      }
    }
  }

  /** The leading `..` of a normal path lead to places above the start. */
  lemma {:induction false} ClimbIsAbove(tree: Tree, from: Place, p: Path, k: nat)
    requires Valid(tree) && IsDirectory(tree, from) && IsNormal(p) && k < |p| && p[k] == Parent
    ensures IsDirectory(tree, Lexical(from, p[..k])) && Lexical(from, p[..k]) <= from
  {
    if k == 0 {
      LexicalNowhere(from);
    } else {
      ClimbIsAbove(tree, from, p, k - 1);
      assert p[..k] == p[..k - 1] + [p[k - 1]];
      LexicalPush(from, p[..k - 1], p[k - 1]);
      var above := Lexical(from, p[..k]);
      if |above| < |from| {
        AboveIsDirectory(tree, from, |above|);
        assert from[..|above|] == above;
      }
    }
  }

  /** A normalised path arrives wherever there is something. */
  lemma NormalizedWalksIff(tree: Tree, from: Place, p: Path)
    requires Valid(tree) && IsDirectory(tree, from) && WellFormed(p)
    ensures Walk(tree, from, Normalized(p)).Some? <==> Lexical(from, p) in tree
  {
    hide Lexical, Walk, Normalized, WellFormed;
    var q := Normalized(p);
    NormalizedMeansTheSame(from, p);
    NormalizedWellFormed(p);
    WalksIffDetoursExist(tree, from, q);
    forall k | 0 <= k < |q| && (q[k] == Parent || q[k] == Cur) ensures IsDirectory(tree, Lexical(from, q[..k])) {
      ClimbIsAbove(tree, from, q, k);
    }
  }

  /** When normalising changes nothing at all: exactly when there is nothing where the path leads, or
      every directory it turns back in is there. */
  lemma NormalizedWalksAlikeIff(tree: Tree, from: Place, p: Path)
    requires Valid(tree) && IsDirectory(tree, from) && WellFormed(p)
    ensures Walk(tree, from, Normalized(p)) == Walk(tree, from, p)
       <==> (Lexical(from, p) in tree ==> DetoursExist(tree, from, p))
  {
    hide Walk, Lexical, Normalized, DetoursExist, WellFormed;
    WalksIffDetoursExist(tree, from, p);
    NormalizedWalksIff(tree, from, p);
    if Walk(tree, from, p).Some? {
      NormalizedWalks(tree, from, p);
    }
  }

  /** Normalising can make a path lead somewhere: out of a directory that is not there. */
  lemma MissingDetourIsForgotten(name: string)
    ensures var tree: Tree := map[[] := Directory];
            var p := [Normal(name), Parent];
            Valid(tree) && Walk(tree, [], p).None? && Walk(tree, [], Normalized(p)) == Some([])
  {
    DetourNormalizes(name);
    assert Go([], Normal(name)) == [name];
  }

  lemma DetourNormalizes(name: string)
    ensures Normalized([Normal(name), Parent]) == []
  {
    var a := Normal(name);
    assert [a, Parent] == [a] + [Parent] && [a][1..] == [] && [Parent][1..] == [];
    NormalizeAppend([], [a], [Parent]);
    assert [] + [a] == [a] && [a][..0] == [];
  }
}
