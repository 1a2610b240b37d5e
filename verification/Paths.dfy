/**
 Lexical path normalisation on Unix. A path is read as its components; normalising works through them
 with a result that is pushed to and popped from.
 */
module Paths {

  datatype Component = Root | Cur | Parent | Normal(name: string)

  type Path = seq<Component>

  /** What a component may be called: separators, `.` and `..` are never names. */
  predicate IsName(s: string) {
    s != "" && '/' !in s && s != "." && s != ".."
  }

  /** A root stands only in front, as do the names a path can hold. */
  ghost predicate WellFormed(p: Path) {
    && (forall k :: 0 < k < |p| ==> p[k] != Root)
    && (forall k :: 0 <= k < |p| && p[k].Normal? ==> IsName(p[k].name))
  }

  predicate HasRoot(p: Path) {
    p != [] && p[0] == Root
  }

  predicate HasFileName(p: Path) {
    p != [] && p[|p| - 1].Normal?
  }

  /** `PathBuf::push` of one component: a root replaces everything. */
  function Push(p: Path, c: Component): Path {
    if c == Root then [Root] else p + [c]
  }

  function NormalizeStep(done: Path, c: Component): Path {
    match c
    case Root => Push(done, c)
    case Cur => done
    case Parent =>
      if HasFileName(done) then done[..|done| - 1]
      else if !HasRoot(done) then Push(done, c)
      else done
    case Normal(_) => Push(done, c)
  }

  function NormalizeFrom(done: Path, p: Path): Path
    decreases |p|
  {
    if p == [] then done else NormalizeFrom(NormalizeStep(done, p[0]), p[1..])
  }

  function Normalized(p: Path): Path {
    NormalizeFrom([], p)
  }

  lemma {:induction false} NormalizeAppend(done: Path, p: Path, q: Path)
    ensures NormalizeFrom(done, p + q) == NormalizeFrom(NormalizeFrom(done, p), q)
    decreases |p|
  {
    if p == [] {
      assert p + q == q;
    } else {
      assert (p + q)[1..] == p[1..] + q;
      NormalizeAppend(NormalizeStep(done, p[0]), p[1..], q);
    }
  }

  method Normalize(path: Path) returns (normalized: Path)
    ensures normalized == Normalized(path)
  {
    normalized := [];
    for i := 0 to |path|
      invariant normalized == Normalized(path[..i])
    {
      assert path[..i + 1] == path[..i] + [path[i]];
      NormalizeAppend([], path[..i], [path[i]]);
      assert [path[i]][1..] == [];
      match path[i] {
        case Root => normalized := Push(normalized, path[i]);
        case Cur =>
        case Parent =>
          if HasFileName(normalized) {
            normalized := normalized[..|normalized| - 1];
          } else if !HasRoot(normalized) {
            normalized := Push(normalized, path[i]);
          }
        case Normal(_) => normalized := Push(normalized, path[i]);
      }
    }
    assert path[..|path|] == path;
  }

  // What a path means.

  /** A place in a tree without links: the names from the root down to it. */
  type Place = seq<string>

  /** Where one component leads. The parent of the root is the root. */
  function Go(from: Place, c: Component): Place {
    match c
    case Root => []
    case Cur => from
    case Parent => if from == [] then [] else from[..|from| - 1]
    case Normal(name) => from + [name]
  }

  function Lexical(from: Place, p: Path): Place
    decreases |p|
  {
    if p == [] then from else Lexical(Go(from, p[0]), p[1..])
  }

  lemma {:induction false} LexicalAppend(from: Place, p: Path, q: Path)
    ensures Lexical(from, p + q) == Lexical(Lexical(from, p), q)
    decreases |p|
  {
    if p == [] {
      assert p + q == q;
    } else {
      assert (p + q)[1..] == p[1..] + q;
      LexicalAppend(Go(from, p[0]), p[1..], q);
    }
  }

  lemma LexicalPush(from: Place, p: Path, c: Component)
    ensures Lexical(from, p + [c]) == Go(Lexical(from, p), c)
  {
    LexicalAppend(from, p, [c]);
    assert [c][1..] == [];
  }

  /** No component of the result is a `.`; a `..` is only behind other `..`; nothing but names is
      behind a root. */
  ghost predicate IsNormal(p: Path) {
    forall k :: 0 <= k < |p| ==>
                  p[k] != Cur && (p[k] == Root ==> k == 0) && (p[k] == Parent ==> k == 0 || p[k - 1] == Parent)
  }

  /** Behind a root everything is a name. */
  lemma {:induction false} RootedNames(p: Path, k: nat)
    requires IsNormal(p) && HasRoot(p) && 0 < k < |p|
    ensures p[k].Normal?
  {
    if k > 1 {
      RootedNames(p, k - 1);
    }
  }

  lemma StepMeans(from: Place, done: Path, c: Component)
    requires IsNormal(done)
    ensures IsNormal(NormalizeStep(done, c))
    ensures Lexical(from, NormalizeStep(done, c)) == Go(Lexical(from, done), c)
  {
    if c == Root {
      assert Lexical(from, [Root]) == Lexical([], [Root][1..]);
    } else if c == Parent && HasFileName(done) {
      var last := |done| - 1;
      assert done == done[..last] + [done[last]];
      LexicalPush(from, done[..last], done[last]);
    } else if c == Parent && HasRoot(done) {
      if |done| > 1 {
        RootedNames(done, |done| - 1);
      }
      assert done == [Root];
      assert Lexical(from, [Root]) == Lexical([], [Root][1..]);
    } else if c != Cur {
      LexicalPush(from, done, c);
    }
  }

  lemma {:induction false} NormalizeFromMeans(from: Place, done: Path, p: Path)
    requires IsNormal(done)
    ensures IsNormal(NormalizeFrom(done, p))
    ensures Lexical(from, NormalizeFrom(done, p)) == Lexical(Lexical(from, done), p)
    decreases |p|
  {
    if p != [] {
      StepMeans(from, done, p[0]);
      NormalizeFromMeans(from, NormalizeStep(done, p[0]), p[1..]);
    }
  }

  /** A normalised path names the same place as the original, from every directory. */
  lemma NormalizedMeansTheSame(from: Place, p: Path)
    ensures IsNormal(Normalized(p))
    ensures Lexical(from, Normalized(p)) == Lexical(from, p)
  {
    NormalizeFromMeans(from, [], p);
  }

  /** A normal path is left alone. */
  lemma {:induction false} NormalIsFixed(p: Path)
    requires IsNormal(p)
    ensures Normalized(p) == p
    decreases |p|
  {
    if p != [] {
      var init, last := p[..|p| - 1], p[|p| - 1];
      assert p == init + [last];
      assert forall k :: 0 <= k < |init| ==> init[k] == p[k];
      NormalIsFixed(init);
      NormalizeAppend([], init, [last]);
      assert [last][1..] == [];
      if last == Root {
        assert init == [];
      } else if last == Parent {
        assert init == [] || init[|init| - 1] == Parent;
        if HasRoot(init) {
          RootedNames(p, |p| - 1);
          assert false;
        }
      }
    }
  }

  lemma NormalizeIdempotent(p: Path)
    ensures Normalized(Normalized(p)) == Normalized(p)
  {
    NormalizedMeansTheSame([], p);
    NormalIsFixed(Normalized(p));
  }

  /** `Path::join`: an absolute path replaces. */
  function Joined(p: Path, q: Path): Path {
    if HasRoot(q) then q else p + q
  }

  /** Normalising a join is normalising the left part first and then the join. */
  lemma NormalizeComposes(p: Path, q: Path)
    ensures Normalized(Joined(p, q)) == Normalized(Joined(Normalized(p), q))
  {
    NormalizeAppend([], p, q);
    NormalizeAppend([], Normalized(p), q);
    NormalizeIdempotent(p);
  }

  // Paths with one meaning have one normal form.

  function Fresh(n: nat): Place {
    seq(n, i => "")
  }

  /** A relative normal path: so many steps up, then names down. */
  ghost predicate Shaped(p: Path, ups: nat) {
    && ups <= |p|
    && (forall k :: 0 <= k < ups ==> p[k] == Parent)
    && (forall k :: ups <= k < |p| ==> p[k].Normal?)
  }

  lemma {:induction false} NormalShape(p: Path) returns (ups: nat)
    requires IsNormal(p) && !HasRoot(p)
    ensures Shaped(p, ups)
    decreases |p|
  {
    if p == [] {
      return 0;
    }
    var init := p[..|p| - 1];
    assert forall k :: 0 <= k < |init| ==> init[k] == p[k];
    ups := NormalShape(init);
    if p[|p| - 1] == Parent {
      if init != [] {
        assert init[|init| - 1] == Parent;
      }
      ups := |p|;
    }
  }

  function Names(p: Path): Place
    requires forall k :: 0 <= k < |p| ==> p[k].Normal?
  {
    seq(|p|, i requires 0 <= i < |p| => p[i].name)
  }

  lemma {:induction false} LexicalDown(from: Place, p: Path)
    requires forall k :: 0 <= k < |p| ==> p[k].Normal?
    ensures Lexical(from, p) == from + Names(p)
    decreases |p|
  {
    if p == [] {
      assert from + Names(p) == from;
    } else {
      LexicalDown(from + [p[0].name], p[1..]);
      assert [p[0].name] + Names(p[1..]) == Names(p);
      assert from + [p[0].name] + Names(p[1..]) == from + ([p[0].name] + Names(p[1..]));
    }
  }

  lemma {:induction false} LexicalUp(from: Place, p: Path)
    requires forall k :: 0 <= k < |p| ==> p[k] == Parent
    requires |p| <= |from|
    ensures Lexical(from, p) == from[..|from| - |p|]
    decreases |p|
  {
    if p == [] {
      assert from[..|from|] == from;
    } else {
      var next := from[..|from| - 1];
      LexicalUp(next, p[1..]);
      assert next[..|next| - |p[1..]|] == from[..|from| - |p|];
    }
  }

  lemma LexicalShaped(p: Path, ups: nat, n: nat)
    requires Shaped(p, ups) && ups <= n
    ensures Lexical(Fresh(n), p) == Fresh(n - ups) + Names(p[ups..])
  {
    assert p == p[..ups] + p[ups..];
    LexicalAppend(Fresh(n), p[..ups], p[ups..]);
    LexicalUp(Fresh(n), p[..ups]);
    assert Fresh(n)[..n - ups] == Fresh(n - ups);
    LexicalDown(Fresh(n - ups), p[ups..]);
  }

  lemma LexicalRooted(from: Place, p: Path)
    requires IsNormal(p) && HasRoot(p)
    ensures forall k :: 0 <= k < |p| - 1 ==> p[1..][k].Normal?
    ensures Lexical(from, p) == Names(p[1..])
  {
    forall k | 0 <= k < |p| - 1 ensures p[1..][k].Normal? {
      RootedNames(p, k + 1);
    }
    LexicalDown([], p[1..]);
    assert [] + Names(p[1..]) == Names(p[1..]);
  }

  lemma NamesDetermine(p: Path, q: Path)
    requires forall k :: 0 <= k < |p| ==> p[k].Normal?
    requires forall k :: 0 <= k < |q| ==> q[k].Normal?
    requires Names(p) == Names(q)
    ensures p == q
  {
    assert |Names(p)| == |p| && |Names(q)| == |q|;
    forall k | 0 <= k < |p| ensures p[k] == q[k] {
      assert Names(p)[k] == p[k].name && Names(q)[k] == q[k].name;
    }
  }

  /** Two relative normal paths that lead from deep enough to one place climb equally far. */
  lemma SameClimb(p: Path, q: Path, ups: nat, ups': nat)
    requires WellFormed(p) && WellFormed(q) && Shaped(p, ups) && Shaped(q, ups')
    requires ups < ups'
    ensures Lexical(Fresh(ups'), p) != Lexical(Fresh(ups'), q)
  {
    LexicalShaped(p, ups, ups');
    LexicalShaped(q, ups', ups');
    assert (Fresh(ups' - ups) + Names(p[ups..]))[0] == "";
    if ups' < |q| {
      assert (Fresh(0) + Names(q[ups'..]))[0] == q[ups'].name;
      assert IsName(q[ups'].name);
    }
  }

  lemma RootedApart(p: Path, q: Path)
    requires WellFormed(p) && WellFormed(q) && IsNormal(p) && IsNormal(q)
    requires HasRoot(p) && !HasRoot(q)
    ensures exists from :: Lexical(from, p) != Lexical(from, q)
  {
    var ups := NormalShape(q);
    var n := ups + 1;
    LexicalShaped(q, ups, n);
    LexicalRooted(Fresh(n), p);
    assert (Fresh(1) + Names(q[ups..]))[0] == "";
    if |p| > 1 {
      RootedNames(p, 1);
      assert Names(p[1..])[0] == p[1].name && IsName(p[1].name);
    }
  }

  /** Two paths name the same place from every directory. */
  ghost predicate SameMeaning(p: Path, q: Path) {
    forall from :: Lexical(from, p) == Lexical(from, q)
  }

  lemma SameMeaningSameForm(p: Path, q: Path)
    requires WellFormed(p) && WellFormed(q) && IsNormal(p) && IsNormal(q)
    requires SameMeaning(p, q)
    ensures p == q
  {
    if HasRoot(p) != HasRoot(q) {
      if HasRoot(p) {
        RootedApart(p, q);
      } else {
        RootedApart(q, p);
      }
    } else if HasRoot(p) {
      LexicalRooted([], p);
      LexicalRooted([], q);
      assert Lexical([], p) == Lexical([], q);
      NamesDetermine(p[1..], q[1..]);
      assert p == [p[0]] + p[1..] && q == [q[0]] + q[1..];
    } else {
      var ups := NormalShape(p);
      var ups' := NormalShape(q);
      if ups < ups' {
        SameClimb(p, q, ups, ups');
      } else if ups' < ups {
        SameClimb(q, p, ups', ups);
      } else {
        LexicalShaped(p, ups, ups);
        LexicalShaped(q, ups, ups);
        assert Lexical(Fresh(ups), p) == Lexical(Fresh(ups), q);
        assert Fresh(0) + Names(p[ups..]) == Names(p[ups..]) && Fresh(0) + Names(q[ups..]) == Names(q[ups..]);
        NamesDetermine(p[ups..], q[ups..]);
        assert p[..ups] == q[..ups];
        assert p == p[..ups] + p[ups..] && q == q[..ups] + q[ups..];
      }
    }
  }

  lemma {:induction false} NormalizeFromWellFormed(done: Path, p: Path)
    requires WellFormed(done) && WellFormed(p) && (HasRoot(p) ==> done == [])
    ensures WellFormed(NormalizeFrom(done, p))
    decreases |p|
  {
    if p != [] {
      var next := NormalizeStep(done, p[0]);
      assert forall k :: 0 <= k < |p| - 1 ==> p[1..][k] == p[k + 1];
      NormalizeFromWellFormed(next, p[1..]);
    }
  }

  lemma NormalizedSameMeaning(p: Path, q: Path)
    ensures SameMeaning(Normalized(p), Normalized(q)) <==> SameMeaning(p, q)
  {
    hide Lexical, Normalized;
    if SameMeaning(p, q) {
      forall from ensures Lexical(from, Normalized(p)) == Lexical(from, Normalized(q)) {
        NormalizedMeansTheSame(from, p);
        NormalizedMeansTheSame(from, q);
        assert Lexical(from, p) == Lexical(from, q);
      }
    }
    if SameMeaning(Normalized(p), Normalized(q)) {
      forall from ensures Lexical(from, p) == Lexical(from, q) {
        NormalizedMeansTheSame(from, p);
        NormalizedMeansTheSame(from, q);
        assert Lexical(from, Normalized(p)) == Lexical(from, Normalized(q));
      }
    }
  }

  /** The normal form is canonical: two paths have one exactly if they name the same place from
      every directory. */
  lemma NormalFormIsCanonical(p: Path, q: Path)
    requires WellFormed(p) && WellFormed(q)
    ensures Normalized(p) == Normalized(q) <==> SameMeaning(p, q)
  {
    hide Lexical, Normalized;
    NormalizedSameMeaning(p, q);
    if SameMeaning(Normalized(p), Normalized(q)) {
      NormalizedMeansTheSame([], p);
      NormalizedMeansTheSame([], q);
      NormalizedWellFormed(p);
      NormalizedWellFormed(q);
      SameMeaningSameForm(Normalized(p), Normalized(q));
    }
  }

  lemma NormalizedWellFormed(p: Path)
    requires WellFormed(p)
    ensures WellFormed(Normalized(p))
  {
    NormalizeFromWellFormed([], p);
  }
}
