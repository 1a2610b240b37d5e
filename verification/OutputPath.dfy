/** The file path an agent asked for, as text, against the caller's directory. */
module OutputPath {

  import opened Paths
  import Text

  /** `Path::components` behind the start of a path: repeated separators and `.` are skipped. */
  function FromParts(parts: seq<string>): Path {
    if parts == [] then []
    else
      (if parts[0] == "" || parts[0] == "." then []
       else if parts[0] == ".." then [Parent]
       else [Normal(parts[0])])
      + FromParts(parts[1..])
  }

  /** A leading separator is the root, and a leading `.` is kept. */
  function Lead(s: string): Path {
    if s != "" && s[0] == '/' then [Root]
    else if Text.Split(s, '/')[0] == "." then [Cur]
    else []
  }

  function Components(s: string): Path {
    Lead(s) + FromParts(Text.Split(s, '/'))
  }

  predicate IsAbsolute(s: string) {
    s != "" && s[0] == '/'
  }

  /** `Path::join` on text. */
  function JoinText(base: string, s: string): string {
    if IsAbsolute(s) then s
    else if base == "" || base[|base| - 1] == '/' then base + s
    else base + "/" + s
  }

  function PartText(c: Component): string {
    match c
    case Root => ""
    case Cur => "."
    case Parent => ".."
    case Normal(name) => name
  }

  function PartTexts(p: Path): (r: seq<string>)
    ensures |r| == |p| && forall k :: 0 <= k < |p| ==> r[k] == PartText(p[k])
  {
    seq(|p|, i requires 0 <= i < |p| => PartText(p[i]))
  }

  /** The text of a path built from components. */
  function Render(p: Path): string {
    if p == [] then ""
    else if p == [Root] then "/"
    else Text.Join(PartTexts(p), '/')
  }

  lemma {:induction false} FromPartsAppend(a: seq<string>, b: seq<string>)
    ensures FromParts(a + b) == FromParts(a) + FromParts(b)
  {
    if a == [] {
      assert a + b == b;
    } else {
      assert (a + b)[1..] == a[1..] + b;
      FromPartsAppend(a[1..], b);
    }
  }

  lemma {:induction false} FromPartsWellFormed(parts: seq<string>)
    requires forall k :: 0 <= k < |parts| ==> '/' !in parts[k]
    ensures forall k :: 0 <= k < |FromParts(parts)| ==>
              var c := FromParts(parts)[k];
              c == Parent || (c.Normal? && IsName(c.name))
  {
    if parts != [] {
      FromPartsWellFormed(parts[1..]);
    }
  }

  lemma ComponentsWellFormed(s: string)
    ensures WellFormed(Components(s))
    ensures HasRoot(Components(s)) <==> IsAbsolute(s)
  {
    FromPartsWellFormed(Text.Split(s, '/'));
  }

  /** Reading a concatenation with a separator between. */
  lemma ComponentsConcat(a: string, b: string)
    requires a != ""
    ensures Components(a + "/" + b) == Components(a) + FromParts(Text.Split(b, '/'))
  {
    hide Text.Split, FromParts;
    Text.SplitConcat(a, b, '/');
    FromPartsAppend(Text.Split(a, '/'), Text.Split(b, '/'));
    assert a + ['/'] + b == a + "/" + b && (a + "/" + b)[0] == a[0];
    assert Lead(a + "/" + b) == Lead(a);
  }

  /** Normalising skips what only a relative path in front of it keeps. */
  lemma LeadIsSkipped(p: Path, b: string)
    requires !IsAbsolute(b)
    ensures Normalized(p + Components(b)) == Normalized(p + FromParts(Text.Split(b, '/')))
  {
    NormalizeAppend([], p, Components(b));
    NormalizeAppend([], p, FromParts(Text.Split(b, '/')));
    NormalizeAppend(Normalized(p), Lead(b), FromParts(Text.Split(b, '/')));
    assert [Cur][1..] == [];
  }

  /** Joining texts and joining the paths they name come to the same once normalised. */
  lemma JoinedText(base: string, s: string)
    ensures Normalized(Components(JoinText(base, s))) == Normalized(Joined(Components(base), Components(s)))
  {
    hide Normalized;
    ComponentsWellFormed(s);
    if IsAbsolute(s) {
    } else if base == "" {
      EmptyComponents();
      assert [] + Components(s) == Components(s) && base + s == s;
    } else if base[|base| - 1] == '/' {
      TrailingSeparator(base[..|base| - 1], s);
      assert base == base[..|base| - 1] + "/";
      LeadIsSkipped(Components(base), s);
    } else {
      ComponentsConcat(base, s);
      LeadIsSkipped(Components(base), s);
    }
  }

  lemma EmptyComponents()
    ensures Components("") == []
  {
    assert Text.Split("", '/') == [""];
    assert FromParts([""]) == [] + FromParts([""][1..]);
  }

  lemma TrailingSeparator(a: string, s: string)
    requires !IsAbsolute(s)
    ensures Components(a + "/" + s) == Components(a + "/") + FromParts(Text.Split(s, '/'))
  {
    hide Components, FromParts, Text.Split;
    EmptyParts();
    if a == "" {
      RootConcat(s);
      RootConcat("");
      assert a + "/" + s == "/" + s && a + "/" == "/" + "";
    } else {
      ComponentsConcat(a, s);
      ComponentsConcat(a, "");
      assert a + "/" + "" == a + "/";
      assert Components(a) + [] == Components(a);
    }
  }

  lemma EmptyPart()
    ensures Text.Split("", '/') == [""] && FromParts([""]) == []
  {
    assert [""][1..] == [];
  }

  lemma LeadOfRooted(s: string)
    ensures Lead("/" + s) == [Root]
  {}

  lemma RootConcat(s: string)
    ensures Components("/" + s) == [Root] + FromParts(Text.Split(s, '/'))
  {
    hide Text.Split, FromParts, Lead;
    Text.SplitConcat("", s, '/');
    assert "" + ['/'] + s == "/" + s;
    EmptyPart();
    FromPartsAppend([""], Text.Split(s, '/'));
    LeadOfRooted(s);
    assert [] + FromParts(Text.Split(s, '/')) == FromParts(Text.Split(s, '/'));
  }

  /** What a text reads as once written from components is those components. */
  lemma RenderedReadsBack(p: Path)
    requires WellFormed(p) && IsNormal(p)
    ensures Components(Render(p)) == p
  {
    hide Components, Text.Join, Text.Split;
    if p == [] {
      EmptyComponents();
    } else if p == [Root] {
      RootConcat("");
      assert "/" + "" == "/";
      EmptyParts();
    } else if p[0] == Root {
      RootedReadsBack(p);
    } else {
      RelativeReadsBack(p);
    }
  }

  lemma EmptyParts()
    ensures FromParts(Text.Split("", '/')) == []
  {
    assert Text.Split("", '/') == [""];
    assert FromParts([""]) == [] + FromParts([""][1..]);
  }

  lemma {:induction false} FromPartTexts(p: Path)
    requires forall k :: 0 <= k < |p| ==> p[k] == Parent || (p[k].Normal? && IsName(p[k].name))
    ensures FromParts(PartTexts(p)) == p
    decreases |p|
  {
    if p != [] {
      FromPartTexts(p[1..]);
      assert PartTexts(p)[1..] == PartTexts(p[1..]);
    }
  }

  lemma RelativeReadsBack(p: Path)
    requires p != [] && WellFormed(p) && IsNormal(p) && p[0] != Root
    ensures Components(Text.Join(PartTexts(p), '/')) == p
  {
    hide Text.Join, Text.Split, FromParts;
    var texts := PartTexts(p);
    forall k | 0 <= k < |texts| ensures '/' !in texts[k] {
      assert p[k] == Parent || IsName(p[k].name);
    }
    Text.SplitJoin(texts, '/');
    FromPartTexts(p);
    var s := Text.Join(texts, '/');
    assert texts[0] != "" && texts[0] != ".";
    JoinStart(texts);
    assert Lead(s) == [];
  }

  lemma JoinStart(parts: seq<string>)
    requires parts != [] && parts[0] != ""
    ensures Text.Join(parts, '/') != "" && Text.Join(parts, '/')[0] == parts[0][0]
  {}

  lemma RootedReadsBack(p: Path)
    requires |p| > 1 && WellFormed(p) && IsNormal(p) && p[0] == Root
    ensures Components(Text.Join(PartTexts(p), '/')) == p
  {
    hide Text.Split, FromParts;
    var rest := p[1..];
    var texts := PartTexts(rest);
    assert PartTexts(p)[1..] == texts && PartTexts(p)[0] == "";
    forall k | 0 <= k < |rest| ensures rest[k].Normal? && IsName(rest[k].name) {
      RootedNames(p, k + 1);
    }
    forall k | 0 <= k < |texts| ensures '/' !in texts[k] {
      assert IsName(rest[k].name);
    }
    Text.SplitJoin(texts, '/');
    FromPartTexts(rest);
    var s := Text.Join(texts, '/');
    assert Text.Join(PartTexts(p), '/') == "" + ['/'] + s;
    assert "" + ['/'] + s == "/" + s;
    RootConcat(s);
    assert p == [Root] + rest;
  }

  method ResolveOutputPath(value: string, workingDirectory: string) returns (resolved: string)
    ensures resolved == Resolved(value, workingDirectory)
  {
    var path := Text.Trim(value);
    var absolute := if IsAbsolute(path) then path else JoinText(workingDirectory, path);
    var normalized := Normalize(Components(absolute));
    resolved := Render(normalized);
  }

  function Resolved(value: string, workingDirectory: string): string {
    var path := Text.Trim(value);
    Render(Normalized(Components(if IsAbsolute(path) then path else JoinText(workingDirectory, path))))
  }

  /** From an absolute directory the result is an absolute path of names alone, and it names the
      place the trimmed value names from that directory. */
  lemma ResolvedIsAbsolute(value: string, workingDirectory: string)
    requires IsAbsolute(workingDirectory)
    ensures var result := Components(Resolved(value, workingDirectory));
            && HasRoot(result)
            && (forall k :: 0 < k < |result| ==> result[k].Normal?)
            && forall from :: Lexical(from, result)
                           == Lexical(Lexical([], Components(workingDirectory)), Components(Text.Trim(value)))
  {
    hide Components, Lexical, Normalized, Render, Text.Trim;
    var path := Text.Trim(value);
    var joined := Joined(Components(workingDirectory), Components(path));
    JoinedText(workingDirectory, path);
    ComponentsWellFormed(workingDirectory);
    ComponentsWellFormed(path);
    var normal := Normalized(joined);
    JoinedWellFormed(Components(workingDirectory), Components(path));
    NormalizedWellFormed(joined);
    NormalizedMeansTheSame([], joined);
    RenderedReadsBack(normal);
    assert Components(Resolved(value, workingDirectory)) == normal by {
      ResolvedIs(value, workingDirectory);
    }
    forall from ensures Lexical(from, normal) == Lexical(Lexical([], Components(workingDirectory)), Components(path)) {
      NormalizedMeansTheSame(from, joined);
      RootedAnywhere(from, Components(workingDirectory), Components(path));
    }
    NormalizedKeepsRoot(joined);
    forall k | 0 < k < |normal| ensures normal[k].Normal? {
      RootedNames(normal, k);
    }
  }

  lemma ResolvedIs(value: string, workingDirectory: string)
    ensures Resolved(value, workingDirectory)
         == Render(Normalized(Components(JoinText(workingDirectory, Text.Trim(value)))))
  {}

  lemma JoinedWellFormed(p: Path, q: Path)
    requires WellFormed(p) && WellFormed(q)
    ensures WellFormed(Joined(p, q))
  {}

  lemma RootedAnywhere(from: Place, p: Path, q: Path)
    requires HasRoot(p)
    ensures Lexical(from, Joined(p, q)) == Lexical(Lexical([], p), q)
  {
    if !HasRoot(q) {
      LexicalAppend(from, p, q);
    }
  }

  lemma {:induction false} NormalizeFromKeepsRoot(done: Path, p: Path)
    requires HasRoot(done)
    ensures HasRoot(NormalizeFrom(done, p))
    decreases |p|
  {
    if p != [] {
      NormalizeFromKeepsRoot(NormalizeStep(done, p[0]), p[1..]);
    }
  }

  lemma NormalizedKeepsRoot(p: Path)
    requires HasRoot(p)
    ensures HasRoot(Normalized(p))
  {
    assert Normalized(p) == NormalizeFrom([Root], p[1..]);
    NormalizeFromKeepsRoot([Root], p[1..]);
  }
}
