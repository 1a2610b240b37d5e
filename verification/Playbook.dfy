/**
 One file of lessons per site, found by its host and then by the host's parent domains. A target is
 given by the host the URL parser finds in it; a file by its name in the playbook directory.
 */
module Playbook {

  import opened Wrappers
  import opened Sites
  import Text

  function StripWww(host: string): string {
    if "www." <= host then host[4..] else host
  }

  /** The name a site is filed under. */
  function SiteKey(urlHost: Option<string>): Option<string> {
    if urlHost.None? then None
    else
      var host := StripWww(urlHost.value);
      if host != "" && '/' !in host && '\\' !in host && host != "." && host != ".." then Some(host) else None
  }

  /** A leading `www.` goes. */
  lemma KeyOfWww(host: string)
    requires !("www." <= host)
    ensures SiteKey(Some("www." + host)) == SiteKey(Some(host))
  {
    assert ("www." + host)[4..] == host;
  }

  /** What is left is the key, unless it could not name a file. */
  lemma KeyIs(host: string)
    requires !("www." <= host)
    ensures SiteKey(Some(host)) == if host in {"", ".", ".."} || exists k :: 0 <= k < |host| && host[k] in "/\\" then None
                                   else Some(host)
  {
    assert "/\\"[0] == '/' && "/\\"[1] == '\\';
  }

  /** What follows the first dot. */
  function Parent(host: string): string
    requires '.' in host
  {
    if host[0] == '.' then host[1..] else Parent(host[1..])
  }

  lemma {:induction false} ParentIs(host: string)
    requires '.' in host
    ensures |Parent(host)| < |host|
    ensures Labels(host) == [Labels(host)[0]] + Labels(Parent(host))
    ensures Covers(Parent(host), host)
  {
    hide Text.Split;
    var parent := Parent(host);
    ParentCut(host);
    var head := host[..|host| - |parent| - 1];
    assert host == head + ['.'] + parent;
    Text.SplitHead(head, parent, '.');
  }

  lemma {:induction false} ParentCut(host: string)
    requires '.' in host
    ensures var p := Parent(host);
            && |p| < |host| && host[|host| - |p|..] == p
            && host[|host| - |p| - 1] == '.' && '.' !in host[..|host| - |p| - 1]
  {
    if host[0] != '.' {
      ParentCut(host[1..]);
      var p := Parent(host);
      assert host[..|host| - |p| - 1] == [host[0]] + host[1..][..|host| - |p| - 2];
    }
  }

  /** The keys a key is looked up under, most specific first. */
  function Keys(key: string): (keys: seq<string>)
    decreases |key|
  {
    if '.' !in key then [key]
    else
      ParentIs(key);
      if '.' in Parent(key) then [key] + Keys(Parent(key)) else [key]
  }

  lemma KeysStep(rest: string)
    ensures '.' in rest && '.' in Parent(rest) ==> Keys(rest) == [rest] + Keys(Parent(rest))
    ensures !('.' in rest && '.' in Parent(rest)) ==> Keys(rest) == [rest]
  {}

  method LookupKeys(urlHost: Option<string>) returns (keys: seq<string>)
    ensures keys == match SiteKey(urlHost) case None => [] case Some(key) => Keys(key)
  {
    hide Keys, Covers, Text.Split, SiteKey;
    var found := SiteKey(urlHost);
    if found.None? {
      return [];
    }
    var key := found.value;
    keys := [key];
    assert keys[..|keys| - 1] + Keys(key) == Keys(key);
    var rest := key;
    while '.' in rest
      invariant keys != [] && keys[|keys| - 1] == rest
      invariant keys[..|keys| - 1] + Keys(rest) == Keys(key)
      decreases |rest|
    {
      ParentIs(rest);
      KeysStep(rest);
      var parent := Parent(rest);
      if '.' !in parent {
        break;
      }
      var before := keys;
      keys := before + [parent];
      rest := parent;
      assert keys[..|keys| - 1] == before == before[..|before| - 1] + [before[|before| - 1]];
    }
    KeysStep(rest);
    assert keys == keys[..|keys| - 1] + [rest];
  }

  lemma {:induction false} LabelCount(key: string)
    ensures |Labels(key)| >= 1
    ensures |Labels(key)| >= 2 <==> '.' in key
  {
    hide Text.Split;
    if '.' in key {
      ParentIs(key);
    } else {
      Text.SplitNone(key, '.');
    }
  }

  /** The i-th key is the host without its first i labels, down to two labels. */
  lemma {:induction false} KeysAreSuffixes(key: string)
    ensures |Keys(key)| == if |Labels(key)| >= 2 then |Labels(key)| - 1 else 1
    ensures forall i :: 0 <= i < |Keys(key)| ==> Labels(Keys(key)[i]) == Labels(key)[i..]
    decreases |key|
  {
    hide Text.Split;
    LabelCount(key);
    if '.' in key {
      ParentIs(key);
      LabelCount(Parent(key));
      if '.' in Parent(key) {
        KeysAreSuffixes(Parent(key));
        forall i | 0 <= i < |Keys(key)| ensures Labels(Keys(key)[i]) == Labels(key)[i..] {
          if i > 0 {
            assert Keys(key)[i] == Keys(Parent(key))[i - 1];
            assert Labels(key)[i..] == Labels(Parent(key))[i - 1..];
          }
        }
      }
    }
  }

  lemma LabelsDetermine(a: string, b: string)
    requires Labels(a) == Labels(b)
    ensures a == b
  {
    Text.JoinSplit(a, '.');
    Text.JoinSplit(b, '.');
  }

  lemma KeyIsParent(key: string, i: nat)
    requires i < |Keys(key)|
    ensures i == 0 ==> Keys(key)[i] == key
    ensures i > 0 ==> Covers(Keys(key)[i], key) && |Labels(Keys(key)[i])| >= 2
  {
    hide Covers, Labels, Keys;
    KeysAreSuffixes(key);
    var k := Keys(key)[i];
    if i == 0 {
      FirstKey(key);
    } else {
      assert Labels(k) == Labels(key)[i..];
      CoversIffLabels(k, key);
    }
  }

  lemma ParentIsKey(key: string, k: string)
    requires Covers(k, key) && |Labels(k)| >= 2
    ensures k in Keys(key)
  {
    hide Covers, Labels, Keys;
    KeysAreSuffixes(key);
    CoversIffLabels(k, key);
    var i := |Labels(key)| - |Labels(k)|;
    assert Labels(Keys(key)[i]) == Labels(k);
    LabelsDetermine(Keys(key)[i], k);
  }

  /** Exactly the host key and every parent domain of it that still has two labels. */
  lemma KeysExact(key: string, k: string)
    ensures k in Keys(key) <==> k == key || (Covers(k, key) && |Labels(k)| >= 2)
  {
    hide Covers, Labels, Keys;
    if k in Keys(key) {
      var i :| 0 <= i < |Keys(key)| && Keys(key)[i] == k;
      KeyIsParent(key, i);
    }
    if Covers(k, key) && |Labels(k)| >= 2 {
      ParentIsKey(key, k);
    }
    FirstKey(key);
    KeysNonEmpty(key);
  }

  lemma FirstKey(key: string)
    ensures Keys(key) != [] && Keys(key)[0] == key
  {}

  /** In strictly decreasing length. */
  lemma {:induction false} KeysShrink(key: string, i: nat, j: nat)
    requires i < j < |Keys(key)|
    ensures |Keys(key)[j]| < |Keys(key)[i]|
    decreases |key|
  {
    ParentIs(key);
    if i > 0 {
      KeysShrink(Parent(key), i - 1, j - 1);
    } else {
      KeysNoLonger(Parent(key), j - 1);
    }
  }

  lemma {:induction false} KeysNoLonger(key: string, i: nat)
    requires i < |Keys(key)|
    ensures |Keys(key)[i]| <= |key|
    decreases |key|
  {
    if i > 0 {
      ParentIs(key);
      KeysNoLonger(Parent(key), i - 1);
    }
  }

  // The directory.

  type Files = map<string, string>

  function FileName(key: string): string {
    key + ".md"
  }

  function FirstRecorded(files: Files, keys: seq<string>): Option<string> {
    if keys == [] then None
    else if FileName(keys[0]) in files then Some(FileName(keys[0]))
    else FirstRecorded(files, keys[1..])
  }

  function FindIn(files: Files, urlHost: Option<string>): Option<string> {
    match SiteKey(urlHost)
    case None => None
    case Some(key) => FirstRecorded(files, Keys(key))
  }

  lemma {:induction false} FirstRecordedFacts(files: Files, keys: seq<string>) returns (i: nat)
    ensures FirstRecorded(files, keys).None? ==> forall j :: 0 <= j < |keys| ==> FileName(keys[j]) !in files
    ensures FirstRecorded(files, keys).Some? ==>
              && i < |keys| && FirstRecorded(files, keys).value == FileName(keys[i]) && FileName(keys[i]) in files
              && forall j :: 0 <= j < i ==> FileName(keys[j]) !in files
  {
    i := 0;
    if keys != [] && FileName(keys[0]) !in files {
      var k := FirstRecordedFacts(files, keys[1..]);
      forall j | 0 < j < |keys| ensures keys[j] == keys[1..][j - 1] {
      }
      i := k + 1;
    }
  }

  /** A recorded site that a key falls under: the key itself or a parent domain with two labels. */
  ghost predicate Applies(files: Files, key: string, site: string) {
    FileName(site) in files && (site == key || (Covers(site, key) && |Labels(site)| >= 2))
  }

  /** The file found is that of the longest recorded site covering the host; none is found exactly
      if there is none. */
  lemma FindsLongest(files: Files, urlHost: Option<string>)
    requires SiteKey(urlHost).Some?
    ensures var key := SiteKey(urlHost).value;
            match FindIn(files, urlHost)
            case None => forall site :: !Applies(files, key, site)
            case Some(file) => exists found :: Applies(files, key, found) && file == FileName(found) &&
                                               forall site :: Applies(files, key, site) ==> |site| <= |found|
  {
    hide Covers, Labels;
    var key := SiteKey(urlHost).value;
    var keys := Keys(key);
    var i := FirstRecordedFacts(files, keys);
    forall site ensures Applies(files, key, site) <==> site in keys && FileName(site) in files {
      KeysExact(key, site);
    }
    if FindIn(files, urlHost).Some? {
      assert Applies(files, key, keys[i]);
      forall site | Applies(files, key, site) ensures |site| <= |keys[i]| {
        var j :| 0 <= j < |keys| && keys[j] == site;
        if i < j {
          KeysShrink(key, i, j);
        }
      }
    }
  }

  /** The file to write: the one that applies, or a new one named after the host. */
  function PathForIn(files: Files, urlHost: Option<string>): Option<string> {
    var found := FindIn(files, urlHost);
    if found.Some? then found
    else match SiteKey(urlHost)
      case None => None
      case Some(key) => Some(FileName(key))
  }

  /** A target nothing has been recorded for gets a file of its own name. */
  lemma NewFileIsOwn(files: Files, urlHost: Option<string>)
    requires SiteKey(urlHost).Some? && FindIn(files, urlHost).None?
    ensures PathForIn(files, urlHost) == Some(SiteKey(urlHost).value + ".md")
  {}

  /** Writing the file for a target makes it the one that is found for it. */
  lemma FoundOnceWritten(files: Files, urlHost: Option<string>, text: string)
    requires PathForIn(files, urlHost).Some?
    ensures FindIn(files[PathForIn(files, urlHost).value := text], urlHost) == PathForIn(files, urlHost)
  {
    hide Keys;
    var key := SiteKey(urlHost).value;
    var path := PathForIn(files, urlHost).value;
    var files' := files[path := text];
    FirstKey(key);
    KeysNonEmpty(key);
    var i := FirstRecordedFacts(files, Keys(key));
    if FindIn(files, urlHost).Some? {
      SameFirst(files, files', Keys(key));
    }
  }

  lemma KeysNonEmpty(key: string)
    ensures Keys(key) != []
  {}

  lemma {:induction false} SameFirst(files: Files, files': Files, keys: seq<string>)
    requires forall name :: name in files <==> name in files'
    ensures FirstRecorded(files, keys) == FirstRecorded(files', keys)
  {
    if keys != [] {
      SameFirst(files, files', keys[1..]);
    }
  }

  lemma FileNameTells(a: string, b: string)
    requires FileName(a) == FileName(b)
    ensures a == b
  {
    assert a == FileName(a)[..|FileName(a)| - 3] && b == FileName(b)[..|FileName(b)| - 3];
  }

  /** Writing one site's file changes nothing for a target that does not fall under that site. */
  lemma ElsewhereUnchanged(files: Files, site: string, text: string, urlHost: Option<string>)
    requires SiteKey(urlHost).Some?
    requires var key := SiteKey(urlHost).value; site != key && !(Covers(site, key) && |Labels(site)| >= 2)
    ensures FindIn(files[FileName(site) := text], urlHost) == FindIn(files, urlHost)
  {
    hide Covers, Labels, Keys;
    var key := SiteKey(urlHost).value;
    KeysExact(key, site);
    OtherFirst(files, site, text, Keys(key));
  }

  lemma {:induction false} OtherFirst(files: Files, site: string, text: string, keys: seq<string>)
    requires site !in keys
    ensures FirstRecorded(files[FileName(site) := text], keys) == FirstRecorded(files, keys)
  {
    hide FileName;
    if keys != [] {
      if FileName(keys[0]) == FileName(site) {
        FileNameTells(keys[0], site);
      }
      OtherFirst(files, site, text, keys[1..]);
    }
  }

  function WithNewline(text: string): string {
    if text != "" && text[|text| - 1] == '\n' then text else text + "\n"
  }

  predicate EndsBlank(s: string) {
    |s| >= 2 && s[|s| - 2] == '\n' && s[|s| - 1] == '\n'
  }

  /** What makes the end of a text into a blank line. */
  function Separator(existing: string): string {
    if EndsBlank(existing) then ""
    else if existing != "" && existing[|existing| - 1] == '\n' then "\n"
    else "\n\n"
  }

  lemma SeparatorEnds(existing: string)
    ensures IsLead(existing, existing + Separator(existing))
  {
    var lead := existing + Separator(existing);
    forall n | |existing| <= n < |lead| ensures !EndsBlank(lead[..n]) {
      assert lead[..n] == existing + Separator(existing)[..n - |existing|];
      if n == |existing| { assert lead[..n] == existing; }
    }
  }

  /** What a write leaves in a file that held `before`: the content, and when appending to something
      all of that before it and a blank line between; a newline at the end. */
  ghost predicate Holds(before: Option<string>, append: bool, content: string, after: string) {
    if append && before.Some? && before.value != "" then
      exists lead :: IsLead(before.value, lead) && Ended(lead + content, after)
    else Ended(content, after)
  }

  /** All of the text, and no more line breaks than make its end a blank line. */
  ghost predicate IsLead(before: string, lead: string) {
    before <= lead && EndsBlank(lead) && forall n :: |before| <= n < |lead| ==> !EndsBlank(lead[..n])
  }

  /** The text, with a line break behind it if it did not end with one. */
  ghost predicate Ended(text: string, after: string) {
    && text <= after && |after| <= |text| + 1 && after != "" && after[|after| - 1] == '\n'
    && (text != "" && text[|text| - 1] == '\n' ==> after == text)
  }

  lemma NewlineEnds(text: string)
    ensures Ended(text, WithNewline(text))
  {}

  function ContentOf(files: Files, name: string): Option<string> {
    if name in files then Some(files[name]) else None
  }

  lemma PathIffKey(files: Files, urlHost: Option<string>)
    ensures PathForIn(files, urlHost).Some? <==> SiteKey(urlHost).Some?
  {}

  datatype Error = NoWebHost | EmptyPlaybook | Unreadable | Unwritable

  /** How far the disk lets a write come: a stop after `n` characters leaves those in the file. */
  datatype Disk = Works | NoDirectory | NotOpened | StopsAfter(n: nat)

  /** A file that was to hold what `Holds` says, and holds all of it or what came before the stop. */
  ghost predicate Written(before: Option<string>, append: bool, content: string, after: string, disk: Disk) {
    exists text ::
      Holds(before, append, content, text)
      && after == if disk.StopsAfter? && disk.n < |text| then text[..disk.n] else text
  }

  /** An append that is stopped keeps the earlier lessons exactly if it came that far. */
  lemma StoppedAppendKeepsIff(before: string, content: string, after: string, n: nat)
    requires before != "" && Written(Some(before), true, content, after, StopsAfter(n))
    ensures before <= after <==> |before| <= n
  {
    var text :| Holds(Some(before), true, content, text) && after == if n < |text| then text[..n] else text;
    assert before <= text;
  }

  class Directory {
    var files: Files

    constructor (files: Files)
      ensures this.files == files
    {
      this.files := files;
    }

    /** `readable` is whether reading an existing file succeeds. */
    method WriteIn(urlHost: Option<string>, content: string, append: bool, readable: bool, disk: Disk)
      returns (r: Result<string, Error>)
      modifies this
      ensures SiteKey(urlHost).None? ==> r == Failure(NoWebHost)
      ensures SiteKey(urlHost).Some? && Text.AllSpace(content) ==> r == Failure(EmptyPlaybook)
      ensures SiteKey(urlHost).Some? && !Text.AllSpace(content) && disk.NoDirectory? ==> r == Failure(Unwritable)
      ensures SiteKey(urlHost).Some? && !Text.AllSpace(content) && readable ==> (r.Success? <==> disk.Works?)
      ensures r.Success? ==> disk.Works? && Some(r.value) == PathForIn(old(files), urlHost)
      ensures r.Failure? && !(r.error.Unwritable? && disk.StopsAfter?) ==> files == old(files)
      // Once the file is opened it is the one that is found from then on, and no other is touched.
      ensures r.Success? || (r.error.Unwritable? && disk.StopsAfter?) ==>
                var path := PathForIn(old(files), urlHost);
                && path.Some? && FindIn(files, urlHost) == path
                && path.value in files && files - {path.value} == old(files) - {path.value}
                && Written(ContentOf(old(files), path.value), append, content, files[path.value], disk)
    {
      hide FindIn, SiteKey, Text.Trim, WithNewline, Separator;
      PathIffKey(files, urlHost);
      var found := PathForIn(files, urlHost);
      if found.None? {
        return Failure(NoWebHost);
      }
      var path := found.value;
      Text.TrimFacts(content);
      if Text.Trim(content) == "" {
        return Failure(EmptyPlaybook);
      }
      if disk.NoDirectory? {
        return Failure(Unwritable);
      }
      var lead := "";
      if append && path in files {
        if !readable {
          return Failure(Unreadable);
        }
        if files[path] != "" {
          lead := files[path] + Separator(files[path]);
          SeparatorEnds(files[path]);
        }
      }
      var text := WithNewline(lead + content);
      if disk.NotOpened? {
        return Failure(Unwritable);
      }
      var kept := if disk.StopsAfter? && disk.n < |text| then text[..disk.n] else text;
      FoundOnceWritten(files, urlHost, kept);
      NewlineEnds(lead + content);
      assert Holds(ContentOf(files, path), append, content, text) by {
        assert "" + content == content;
      }
      files := files[path := kept];
      r := if disk.Works? then Success(path) else Failure(Unwritable);
    }
  }

  /** A lesson learned on a subdomain joins the file of its parent domain. */
  lemma SubdomainJoins(files: Files, sub: string, site: string)
    requires SiteKey(Some(sub)).Some? && Covers(site, SiteKey(Some(sub)).value) && |Labels(site)| >= 2
    requires FileName(site) in files
    requires forall other :: Applies(files, SiteKey(Some(sub)).value, other) ==> other == site
    ensures PathForIn(files, Some(sub)) == Some(FileName(site))
  {
    hide Covers, Labels, FindIn;
    FindsLongest(files, Some(sub));
    assert Applies(files, SiteKey(Some(sub)).value, site);
  }
}
