/** Concatenation and first-occurrence search over sequences. */
module Sequences {

  import opened Wrappers

  /** All parts joined end to end. */
  function Flatten<T>(parts: seq<seq<T>>): seq<T> {
    if parts == [] then [] else parts[0] + Flatten(parts[1..])
  }

  lemma {:induction false} FlattenAppend<T>(a: seq<seq<T>>, b: seq<seq<T>>)
    ensures Flatten(a + b) == Flatten(a) + Flatten(b)
  {
    if a == [] {
      assert a + b == b;
    } else {
      FlattenAppend(a[1..], b);
      assert (a + b)[1..] == a[1..] + b;
    }
  }

  lemma FlattenOne<T>(a: seq<T>)
    ensures Flatten([a]) == a
  {
    assert [a][1..] == [];
  }

  /** Everything before position `k` plus part `k` is everything before position `k + 1`. */
  lemma FlattenTake<T>(parts: seq<seq<T>>, k: nat)
    requires k < |parts|
    ensures Flatten(parts[..k + 1]) == Flatten(parts[..k]) + parts[k]
  {
    assert parts[..k + 1] == parts[..k] + [parts[k]];
    FlattenAppend(parts[..k], [parts[k]]);
    FlattenOne(parts[k]);
  }

  lemma FlattenPrefix<T>(parts: seq<seq<T>>, k: nat)
    requires k <= |parts|
    ensures Flatten(parts[..k]) <= Flatten(parts)
  {
    assert parts == parts[..k] + parts[k..];
    FlattenAppend(parts[..k], parts[k..]);
  }

  /** `pattern` occurs in `text` at position `i`. */
  predicate At<T(==)>(text: seq<T>, pattern: seq<T>, i: int) {
    0 <= i && i + |pattern| <= |text| && text[i..i + |pattern|] == pattern
  }

  /** The least position from `from` on where `pattern` occurs. */
  ghost predicate IsFirst<T>(text: seq<T>, pattern: seq<T>, from: nat, i: nat) {
    from <= i && At(text, pattern, i) && forall j :: from <= j < i ==> !At(text, pattern, j)
  }

  lemma {:induction false} FirstExists<T>(text: seq<T>, pattern: seq<T>, from: nat, i: nat)
    requires from <= i && At(text, pattern, i)
    ensures exists f :: IsFirst(text, pattern, from, f)
    decreases i - from
  {
    if At(text, pattern, from) {
      assert IsFirst(text, pattern, from, from);
    } else {
      FirstExists(text, pattern, from + 1, i);
      var f :| IsFirst(text, pattern, from + 1, f);
      assert IsFirst(text, pattern, from, f);
    }
  }

  /** The first occurrence of `pattern` at or after `from`. */
  ghost function Find<T>(text: seq<T>, pattern: seq<T>, from: nat): (r: Option<nat>)
    ensures r.Some? ==> from <= r.value && At(text, pattern, r.value)
    ensures forall j {:trigger At(text, pattern, j)} :: from <= j && (r.None? || j < r.value) ==> !At(text, pattern, j)
  {
    if exists i: nat :: from <= i && At(text, pattern, i) then
      var i: nat :| from <= i && At(text, pattern, i);
      FirstExists(text, pattern, from, i);
      var f :| IsFirst(text, pattern, from, f);
      Some(f)
    else None
  }

  /** Looks at every window in turn. */
  method FindFirst<T(==)>(text: seq<T>, pattern: seq<T>, from: nat) returns (r: Option<nat>)
    ensures r == Find(text, pattern, from)
  {
    var i := from;
    while i + |pattern| <= |text|
      invariant from <= i
      invariant forall j :: from <= j < i ==> !At(text, pattern, j)
    {
      if text[i..i + |pattern|] == pattern {
        FindAt(text, pattern, from, i);
        return Some(i);
      }
      i := i + 1;
    }
    r := None;
  }

  /** A first occurrence, by its position. */
  lemma FindAt<T>(text: seq<T>, pattern: seq<T>, from: nat, i: nat)
    requires from <= i && At(text, pattern, i)
    requires forall j :: from <= j < i ==> !At(text, pattern, j)
    ensures Find(text, pattern, from) == Some(i)
  {}

  lemma FindNone<T>(text: seq<T>, pattern: seq<T>, from: nat)
    requires forall j :: from <= j ==> !At(text, pattern, j)
    ensures Find(text, pattern, from) == None
  {}

  /** A search may as well begin later, if there is nothing in between. */
  lemma FindSkip<T>(text: seq<T>, pattern: seq<T>, from: nat, to: nat)
    requires from <= to && forall j :: from <= j < to ==> !At(text, pattern, j)
    ensures Find(text, pattern, from) == Find(text, pattern, to)
  {
    hide At;
    var r := Find(text, pattern, to);
    if r.Some? {
      FindAt(text, pattern, from, r.value);
    } else {
      FindNone(text, pattern, from);
    }
  }

  /** An occurrence in a concatenation that lies wholly in the left part. */
  lemma AtLeft<T>(a: seq<T>, b: seq<T>, pattern: seq<T>, i: int)
    requires i + |pattern| <= |a|
    ensures At(a + b, pattern, i) <==> At(a, pattern, i)
  {
    if 0 <= i {
      assert (a + b)[i..i + |pattern|] == a[i..i + |pattern|];
    }
  }

  /** An occurrence in a concatenation that lies wholly in the right part. */
  lemma AtRight<T>(a: seq<T>, b: seq<T>, pattern: seq<T>, i: int)
    requires |a| <= i
    ensures At(a + b, pattern, i) <==> At(b, pattern, i - |a|)
  {
    if i + |pattern| <= |a| + |b| {
      assert (a + b)[i..i + |pattern|] == b[i - |a|..i - |a| + |pattern|];
    }
  }

  /** An occurrence inside a cut-out stretch is one in the whole text. */
  lemma AtCut<T>(text: seq<T>, from: nat, to: nat, pattern: seq<T>, i: int)
    requires from <= to <= |text| && At(text[from..to], pattern, i)
    ensures At(text, pattern, from + i)
  {
    var cut := text[from..to];
    assert forall k :: 0 <= k < |cut| ==> cut[k] == text[from + k];
    assert text[from + i..from + i + |pattern|] == cut[i..i + |pattern|];
  }

  /** Of two patterns that occur at one place the shorter begins the longer. */
  lemma AtSame<T>(text: seq<T>, a: seq<T>, b: seq<T>, i: int)
    requires At(text, a, i) && At(text, b, i) && |a| <= |b|
    ensures a <= b
  {
    assert b[..|a|] == text[i..i + |a|];
  }

  /** Every byte of an occurrence is the matching byte of the pattern. */
  lemma AtIndex<T>(text: seq<T>, pattern: seq<T>, i: int, k: int)
    requires At(text, pattern, i) && i <= k < i + |pattern|
    ensures text[k] == pattern[k - i]
  {
    assert text[k] == text[i..i + |pattern|][k - i];
  }

  /** Searching a concatenation finds an occurrence that ends inside the left part. */
  lemma FindLeft<T>(a: seq<T>, b: seq<T>, pattern: seq<T>, from: nat)
    requires Find(a, pattern, from).Some?
    ensures Find(a + b, pattern, from) == Find(a, pattern, from)
  {
    var i := Find(a, pattern, from).value;
    AtLeft(a, b, pattern, i);
    var r := Find(a + b, pattern, from);
    assert r.Some? && r.value <= i;
    AtLeft(a, b, pattern, r.value);
  }

  /** Searching from inside the right part is searching the right part. */
  lemma FindRight<T>(a: seq<T>, b: seq<T>, pattern: seq<T>, from: nat)
    requires |a| <= from
    ensures Find(a + b, pattern, from) ==
            match Find(b, pattern, from - |a|)
            case None => None
            case Some(i) => Some(|a| + i)
  {
    var r := Find(b, pattern, from - |a|);
    var w := Find(a + b, pattern, from);
    if r.Some? {
      AtRight(a, b, pattern, |a| + r.value);
      assert w.Some? && w.value <= |a| + r.value;
    }
    if w.Some? {
      AtRight(a, b, pattern, w.value);
    }
  }

  /** A part of a finite set is no larger. */
  lemma {:induction false} SubsetSize<T>(a: set<T>, b: set<T>)
    requires a <= b
    ensures |a| <= |b|
  {
    if a != {} {
      var x :| x in a;
      SubsetSize(a - {x}, b - {x});
    }
  }
}
