/** Which engine a site is pinned to. The host of an input is what the URL parser makes of it. */
module Sites {

  import opened Wrappers
  import opened Sequences
  import Text

  /** What follows the first occurrence of a pattern. */
  function AfterFirst(s: string, pattern: string): Option<string> {
    if pattern <= s then Some(s[|pattern|..])
    else if s == "" then None
    else AfterFirst(s[1..], pattern)
  }

  /** What stands before the first of the stopping characters. */
  function Before(s: string, stops: string): string {
    if s == "" || s[0] in stops then "" else [s[0]] + Before(s[1..], stops)
  }

  /** What follows the last occurrence of a character. */
  function AfterLast(s: string, c: char): string {
    if c in s then AfterLast(s[1..], c) else s
  }

  function TrimStars(s: string): string {
    if "*." <= s then TrimStars(s[2..]) else s
  }

  function TrimDots(s: string): string {
    if s != "" && s[|s| - 1] == '.' then TrimDots(s[..|s| - 1]) else s
  }

  predicate HasSpace(s: string) {
    exists k :: 0 <= k < |s| && Text.IsSpace(s[k])
  }

  /** The host an entry names, normalised. */
  function SiteHost(entry: string): Option<string> {
    var trimmed := Text.Trim(entry);
    var behind := AfterFirst(trimmed, "://");
    var authority := Before(if behind.Some? then behind.value else trimmed, "/?#");
    var named := Before(AfterLast(authority, '@'), ":");
    var host := Text.Lower(TrimDots(TrimStars(named)));
    if host != "" && !HasSpace(host) then Some(host) else None
  }

  /** A host as an entry can name it: none of the characters that end or begin a host in a URL, no
      leading wildcard, no trailing dot, lower case. */
  ghost predicate IsHost(s: string) {
    && s != "" && !HasSpace(s) && Text.Lower(s) == s
    && (forall k :: 0 <= k < |s| ==> s[k] !in "/?#@:")
    && !("*." <= s) && s[|s| - 1] != '.'
  }

  lemma {:induction false} BeforeFacts(s: string, stops: string)
    ensures Before(s, stops) <= s
    ensures forall k :: 0 <= k < |Before(s, stops)| ==> Before(s, stops)[k] !in stops
    ensures (forall k :: 0 <= k < |s| ==> s[k] !in stops) ==> Before(s, stops) == s
  {
    if s != "" && s[0] !in stops {
      BeforeFacts(s[1..], stops);
      assert s == [s[0]] + s[1..];
    }
  }

  lemma {:induction false} TrimStarsFacts(s: string)
    ensures |TrimStars(s)| <= |s| && TrimStars(s) == s[|s| - |TrimStars(s)|..] && !("*." <= TrimStars(s))
  {
    if "*." <= s {
      TrimStarsFacts(s[2..]);
    }
  }

  lemma {:induction false} TrimDotsFacts(s: string)
    ensures TrimDots(s) <= s && (TrimDots(s) != "" ==> TrimDots(s)[|TrimDots(s)| - 1] != '.')
  {
    if s != "" && s[|s| - 1] == '.' {
      TrimDotsFacts(s[..|s| - 1]);
    }
  }

  lemma {:induction false} NoScheme(s: string)
    requires forall k :: 0 <= k < |s| ==> s[k] != ':'
    ensures AfterFirst(s, "://").None?
  {
    if s != "" {
      assert !("://" <= s) by {
        assert "://"[0] == ':' && s[0] != ':';
      }
      NoScheme(s[1..]);
    }
  }

  /** Lower case changes none of the characters that matter here. */
  lemma LowerKeeps(s: string)
    ensures var l := Text.Lower(s);
            && Text.Lower(l) == l
            && forall k, c :: 0 <= k < |s| && c in "/?#@:*." ==> (l[k] == c <==> s[k] == c)
  {
    var l := Text.Lower(s);
    assert forall c :: c in "/?#@:*." ==> c < 'A';
    assert Text.Lower(l) == l;
  }

  /** Everything an entry is accepted as is a host. */
  lemma SiteHostIsHost(entry: string)
    requires SiteHost(entry).Some?
    ensures IsHost(SiteHost(entry).value)
  {
    hide Before, AfterLast, TrimStars, TrimDots, AfterFirst, Text.Trim, NoneOf;
    var trimmed := Text.Trim(entry);
    var behind := AfterFirst(trimmed, "://");
    var rest := if behind.Some? then behind.value else trimmed;
    var authority := Before(rest, "/?#");
    StoppedBy(rest, "/?#");
    var afterUser := AfterLast(authority, '@');
    UserTaken(authority);
    var named := Before(afterUser, ":");
    StoppedBy(afterUser, ":");
    NoneOfPart(authority, |authority| - |afterUser|, |authority|, "/?#");
    NoneOfPart(afterUser, 0, |named|, "/?#");
    assert afterUser[0..|named|] == named;
    NoneOfAll(named);
    var bare := TrimStars(named);
    TrimStarsFacts(named);
    var host := TrimDots(bare);
    TrimDotsFacts(bare);
    NoneOfPart(named, |named| - |bare|, |named|, "/?#@:");
    NoneOfPart(bare, 0, |host|, "/?#@:");
    assert bare[0..|host|] == host;
    LoweredHost(host);
  }

  lemma NoneOfPart(s: string, i: nat, j: nat, chars: string)
    requires i <= j <= |s| && NoneOf(s, chars)
    ensures NoneOf(s[i..j], chars)
  {}

  lemma NoneOfAll(s: string)
    requires NoneOf(s, "/?#") && '@' !in s && NoneOf(s, ":")
    ensures NoneOf(s, "/?#@:")
  {
    forall k | 0 <= k < |s| ensures s[k] !in "/?#@:" {
      AllFive(s[k]);
    }
  }

  lemma AllFive(c: char)
    ensures c in "/?#@:" <==> c in "/?#" || c == '@' || c in ":"
  {
    assert "/?#@:" == "/?#" + ['@'] + ":";
  }

  lemma LoweredHost(host: string)
    requires host != "" && !HasSpace(Text.Lower(host))
    requires NoneOf(host, "/?#@:")
    requires !("*." <= host) && host[|host| - 1] != '.'
    ensures IsHost(Text.Lower(host))
  {
    LowerKeeps(host);
    var l := Text.Lower(host);
    if |host| >= 2 {
      assert l[0] == '*' <==> host[0] == '*';
      assert l[1] == '.' <==> host[1] == '.';
      assert host[..2] == "*." <==> host[0] == '*' && host[1] == '.';
      assert l[..2] == "*." <==> l[0] == '*' && l[1] == '.';
    }
  }

  /** A host names itself, so what is accepted once is accepted again unchanged. */
  lemma HostNamesItself(s: string)
    requires IsHost(s)
    ensures SiteHost(s) == Some(s)
  {
    hide Before, AfterLast, AfterFirst, Text.Trim;
    assert !Text.IsSpace(s[0]) && !Text.IsSpace(s[|s| - 1]);
    Text.TrimTrimmed(s);
    assert forall k :: 0 <= k < |s| ==> s[k] != ':' && s[k] != '@';
    NoScheme(s);
    assert forall k :: 0 <= k < |s| ==> s[k] !in "/?#";
    BeforeFacts(s, "/?#");
    assert '@' !in s;
    NotBehind(s, '@');
    assert forall k :: 0 <= k < |s| ==> s[k] !in ":";
    BeforeFacts(s, ":");
  }

  lemma NotBehind(s: string, c: char)
    requires c !in s
    ensures AfterLast(s, c) == s
  {}

  lemma SiteHostIdempotent(entry: string)
    requires SiteHost(entry).Some?
    ensures SiteHost(SiteHost(entry).value) == SiteHost(entry)
  {
    SiteHostIsHost(entry);
    HostNamesItself(SiteHost(entry).value);
  }

  // What an entry may look like.

  function Stars(n: nat): (s: string)
    ensures |s| == 2 * n
    ensures forall k :: 0 <= k < |s| ==> s[k] == if k % 2 == 0 then '*' else '.'
  {
    if n == 0 then "" else "*." + Stars(n - 1)
  }

  function Dots(n: nat): string {
    seq(n, _ => '.')
  }

  /** A host as users and browsers write it: with white space around it, a scheme and `://`, a user part,
      leading wildcards, upper case, trailing dots, a port, and a path, query or fragment. */
  datatype Spelling = Spelling(
    lead: string, scheme: string, user: string, stars: nat, core: string, dots: nat, port: string, path: string,
    tail: string)

  function Authority(w: Spelling): string {
    w.user + (Stars(w.stars) + (w.core + Dots(w.dots)) + w.port)
  }

  function Entry(w: Spelling): string {
    w.lead + (w.scheme + (Authority(w) + w.path)) + w.tail
  }

  ghost predicate NoneOf(s: string, chars: string) {
    forall k :: 0 <= k < |s| ==> s[k] !in chars
  }

  /** A scheme ends with the first `://` of the entry. */
  ghost predicate SchemeBefore(scheme: string, rest: string) {
    if scheme == "" then forall k :: !At(rest, "://", k)
    else EndsWith(scheme, "://") && forall k :: 0 <= k < |scheme| - 3 ==> !At(scheme, "://", k)
  }

  /** The host is written that way. A lone star is no host with a dot behind it: it is a wildcard then. */
  ghost predicate Writes(w: Spelling, host: string) {
    && IsHost(host) && Text.Lower(w.core) == host
    && Text.AllSpace(w.lead) && Text.AllSpace(w.tail)
    && Text.Trimmed(w.scheme + (Authority(w) + w.path))
    && SchemeBefore(w.scheme, Authority(w) + w.path)
    && (w.user == "" || w.user[|w.user| - 1] == '@') && NoneOf(w.user, "/?#")
    && (w.port == "" || w.port[0] == ':') && NoneOf(w.port, "/?#@")
    && (w.path == "" || w.path[0] in "/?#")
    && (w.core == "*" ==> w.dots == 0)
  }

  lemma {:induction false} BeforeStop(s: string, rest: string, stops: string)
    requires NoneOf(s, stops) && (rest == "" || rest[0] in stops)
    ensures Before(s + rest, stops) == s
  {
    if s == "" {
      assert s + rest == rest;
    } else {
      assert (s + rest)[1..] == s[1..] + rest;
      BeforeStop(s[1..], rest, stops);
      assert [s[0]] + s[1..] == s;
    }
  }

  lemma AtTail(s: string, pattern: string, k: int)
    requires s != ""
    ensures k >= 0 ==> (At(s[1..], pattern, k) <==> At(s, pattern, k + 1))
  {
    if k >= 0 {
      AtRight([s[0]], s[1..], pattern, k + 1);
      assert [s[0]] + s[1..] == s;
    }
  }

  lemma {:induction false} AfterFirstNone(s: string, pattern: string)
    requires pattern != "" && forall k :: !At(s, pattern, k)
    ensures AfterFirst(s, pattern) == None
  {
    assert pattern <= s ==> At(s, pattern, 0);
    if s != "" {
      forall k ensures !At(s[1..], pattern, k) {
        AtTail(s, pattern, k);
      }
      AfterFirstNone(s[1..], pattern);
    }
  }

  lemma {:induction false} AfterScheme(scheme: string, rest: string)
    requires scheme != "" && SchemeBefore(scheme, rest)
    ensures AfterFirst(scheme + rest, "://") == Some(rest)
    decreases |scheme|
  {
    var s := scheme + rest;
    if |scheme| == 3 {
      assert s[..3] == "://" && s[3..] == rest;
    } else {
      assert !At(scheme, "://", 0);
      NotAcross(scheme, rest);
      var next := scheme[1..];
      assert s[1..] == next + rest;
      forall k | 0 <= k < |next| - 3 ensures !At(next, "://", k) {
        AtTail(scheme, "://", k);
      }
      AfterScheme(next, rest);
    }
  }

  lemma NotAcross(scheme: string, rest: string)
    requires |scheme| > 3 && EndsWith(scheme, "://") && !At(scheme, "://", 0)
    ensures !("://" <= scheme + rest)
  {
    assert scheme[0..3] == (scheme + rest)[..3];
  }

  lemma {:induction false} AfterLastIs(user: string, rest: string)
    requires user == "" || user[|user| - 1] == '@'
    requires '@' !in rest
    ensures AfterLast(user + rest, '@') == rest
  {
    if user == "" {
      assert user + rest == rest;
    } else {
      assert (user + rest)[|user| - 1] == '@' && (user + rest)[1..] == user[1..] + rest;
      AfterLastIs(user[1..], rest);
    }
  }

  lemma {:induction false} StarsTrimmed(n: nat, s: string)
    requires !("*." <= s)
    ensures TrimStars(Stars(n) + s) == s
  {
    if n == 0 {
      assert Stars(n) + s == s;
    } else {
      assert (Stars(n) + s)[2..] == Stars(n - 1) + s;
      StarsTrimmed(n - 1, s);
    }
  }

  lemma {:induction false} DotsTrimmed(s: string, n: nat)
    requires s == "" || s[|s| - 1] != '.'
    ensures TrimDots(s + Dots(n)) == s
  {
    if n == 0 {
      assert s + Dots(n) == s;
    } else {
      assert (s + Dots(n))[..|s| + n - 1] == s + Dots(n - 1);
      DotsTrimmed(s, n - 1);
    }
  }

  lemma StarFirst(s: string)
    ensures "*." <= s <==> |s| >= 2 && s[0] == '*' && s[1] == '.'
  {
    if |s| >= 2 {
      assert s[..2] == [s[0], s[1]];
    }
  }

  /** What holds of a host holds of it in any case. */
  lemma CoreOfHost(core: string, host: string)
    requires IsHost(host) && Text.Lower(core) == host
    ensures core != "" && NoneOf(core, "/?#@:") && !("*." <= core) && core[|core| - 1] != '.'
  {
    LowerKeeps(core);
    StarFirst(core);
    StarFirst(host);
  }

  /** Neither the user part nor what follows it ends the authority before it is over. */
  lemma PartsOfAuthority(w: Spelling, host: string)
    requires Writes(w, host)
    ensures var named := Stars(w.stars) + (w.core + Dots(w.dots));
            && NoneOf(Authority(w), "/?#") && NoneOf(named + w.port, "@") && NoneOf(named, ":")
            && !("*." <= w.core + Dots(w.dots))
  {
    CoreOfHost(w.core, host);
    var bare := w.core + Dots(w.dots);
    var named := Stars(w.stars) + bare;
    forall k | 0 <= k < |named| ensures named[k] !in "/?#@:" {
      if k >= |Stars(w.stars)| + |w.core| {
        assert named[k] == '.';
      }
    }
    StarFirst(bare);
    StarFirst(w.core);
    assert |w.core| == 1 && w.core[0] == '*' ==> w.core == "*";
  }

  /** However a host is written, the entry names it. */
  lemma WrittenNamesHost(w: Spelling, host: string)
    requires Writes(w, host)
    ensures SiteHost(Entry(w)) == Some(host)
  {
    PartsOfAuthority(w, host);
    CoreOfHost(w.core, host);
    hide Before, AfterLast, TrimStars, TrimDots, AfterFirst, Text.Trim, Stars, Dots, IsHost, NoneOf;
    var rest := Authority(w) + w.path;
    var bare := w.core + Dots(w.dots);
    var named := Stars(w.stars) + bare;
    Text.TrimAround(w.lead, w.scheme + rest, w.tail);
    if w.scheme == "" {
      assert w.scheme + rest == rest;
      AfterFirstNone(rest, "://");
    } else {
      AfterScheme(w.scheme, rest);
    }
    BeforeStop(Authority(w), w.path, "/?#");
    assert '@' !in named + w.port by {
      NotIn(named + w.port, '@', "@");
    }
    AfterLastIs(w.user, named + w.port);
    assert w.port == "" || w.port[0] in ":";
    BeforeStop(named, w.port, ":");
    StarsTrimmed(w.stars, bare);
    DotsTrimmed(w.core, w.dots);
    assert host != "" && !HasSpace(host) by {
      HostPlain(host);
    }
  }

  lemma HostPlain(host: string)
    requires IsHost(host)
    ensures host != "" && !HasSpace(host)
  {}

  lemma NotIn(s: string, c: char, chars: string)
    requires NoneOf(s, chars) && c in chars
    ensures c !in s
  {}

  lemma FrontIsScheme(front: string, rest: string)
    requires ':' !in front
    ensures SchemeBefore(front + "://", rest)
  {
    var scheme := front + "://";
    forall k | 0 <= k < |scheme| - 3 ensures !At(scheme, "://", k) {
      assert scheme[k] == front[k];
    }
    assert scheme[|front|..] == "://";
  }

  lemma EdgesPlain(front: string, host: string)
    requires IsHost(host) && (front != "" ==> !Text.IsSpace(front[0]))
    ensures Text.Trimmed(front + "://" + host)
  {
    hide Text.IsSpace;
    var s := front + "://" + host;
    assert s[|s| - 1] == host[|host| - 1];
    assert s[0] == if front == "" then ':' else front[0];
    assert !HasSpace(host) && !Text.IsSpace(host[|host| - 1]);
    assert !Text.IsSpace(':') by { ColonPlain(); }
  }

  lemma ColonPlain()
    ensures !Text.IsSpace(':')
  {}

  /** The first `://` of an entry is taken for its scheme's, whatever stands before it: a host and a query,
      say. The entry then names the host behind. */
  lemma AnySchemeIsTaken(front: string, host: string)
    requires IsHost(host) && ':' !in front && (front != "" ==> !Text.IsSpace(front[0]))
    ensures SiteHost(front + "://" + host) == Some(host)
  {
    var w := Spelling("", front + "://", "", 0, host, 0, "", "", "");
    FrontIsScheme(front, host);
    EdgesPlain(front, host);
    HostAlone(w, host);
    hide SiteHost, IsHost, SchemeBefore, Text.Trimmed, Text.IsSpace, Authority, Entry;
    WrittenNamesHost(w, host);
  }

  lemma HostAlone(w: Spelling, host: string)
    requires IsHost(host) && w.user == "" && w.stars == 0 && w.core == host && w.dots == 0 && w.port == "" && w.path == ""
    requires w.lead == "" && w.tail == ""
    ensures Authority(w) == host && Authority(w) + w.path == host && Text.Lower(w.core) == host
    ensures Entry(w) == w.scheme + host
  {
    hide IsHost;
    assert Stars(0) == "" && Dots(0) == "";
    assert Text.Lower(host) == host by { HostLow(host); }
    assert Authority(w) == host;
    assert host + "" == host && "" + (w.scheme + host) + "" == w.scheme + host;
  }

  lemma HostLow(host: string)
    requires IsHost(host)
    ensures Text.Lower(host) == host
  {}

  // And nothing else is accepted.

  lemma {:induction false} SchemeTaken(s: string) returns (scheme: string)
    requires AfterFirst(s, "://").Some?
    ensures scheme != "" && s == scheme + AfterFirst(s, "://").value && SchemeBefore(scheme, AfterFirst(s, "://").value)
    decreases |s|
  {
    if "://" <= s {
      scheme := "://";
      assert s == s[..3] + s[3..];
    } else {
      var later := SchemeTaken(s[1..]);
      scheme := [s[0]] + later;
      var rest := AfterFirst(s, "://").value;
      SchemeLonger(s[0], later, rest);
    }
  }

  lemma SchemeLonger(c: char, later: string, rest: string)
    requires later != "" && SchemeBefore(later, rest) && !("://" <= [c] + (later + rest))
    ensures SchemeBefore([c] + later, rest)
    ensures [c] + (later + rest) == ([c] + later) + rest
  {
    var scheme := [c] + later;
    assert scheme[1..] == later && [c] + (later + rest) == scheme + rest;
    assert scheme[|scheme| - 3..] == later[|later| - 3..];
    assert scheme[0..3] == (scheme + rest)[..3];
    forall k | 0 <= k < |scheme| - 3 ensures !At(scheme, "://", k) {
      if k > 0 {
        AtTail(scheme, "://", k - 1);
      }
    }
  }

  lemma {:induction false} FirstNoneAfter(s: string)
    requires AfterFirst(s, "://").None?
    ensures forall k :: !At(s, "://", k)
  {
    if s != "" {
      FirstNoneAfter(s[1..]);
      forall k ensures !At(s, "://", k) {
        if k > 0 {
          AtTail(s, "://", k - 1);
        } else if |s| >= 3 {
          assert s[0..3] == s[..3];
        }
      }
    }
  }

  lemma {:induction false} StoppedBy(s: string, stops: string)
    ensures var b := Before(s, stops); b <= s && NoneOf(b, stops) && (s[|b|..] == "" || s[|b|] in stops)
  {
    if s != "" && s[0] !in stops {
      StoppedBy(s[1..], stops);
      assert s[1..][|Before(s[1..], stops)|..] == s[|Before(s, stops)|..];
      assert s == [s[0]] + s[1..];
    }
  }

  lemma {:induction false} UserTaken(s: string)
    ensures var r := AfterLast(s, '@');
            |r| <= |s| && '@' !in r && s[|s| - |r|..] == r && (|r| < |s| ==> s[|s| - |r| - 1] == '@')
  {
    if '@' in s {
      UserTaken(s[1..]);
      var r := AfterLast(s[1..], '@');
      if |r| == |s| - 1 {
        assert s[1..] == r && s[0] == '@';
      }
    }
  }

  lemma {:induction false} StarsTaken(s: string) returns (n: nat)
    ensures s == Stars(n) + TrimStars(s) && !("*." <= TrimStars(s))
  {
    n := 0;
    if "*." <= s {
      n := StarsTaken(s[2..]);
      n := n + 1;
      assert s == s[..2] + s[2..];
    }
  }

  lemma {:induction false} DotsTaken(s: string) returns (n: nat)
    ensures s == TrimDots(s) + Dots(n) && (TrimDots(s) != "" ==> TrimDots(s)[|TrimDots(s)| - 1] != '.')
  {
    n := 0;
    if s != "" && s[|s| - 1] == '.' {
      n := DotsTaken(s[..|s| - 1]);
      assert Dots(n + 1) == Dots(n) + ['.'];
      assert s == s[..|s| - 1] + ['.'];
      n := n + 1;
    }
  }

  /** What follows the scheme. */
  function AfterAny(trimmed: string): string {
    var behind := AfterFirst(trimmed, "://");
    if behind.Some? then behind.value else trimmed
  }

  lemma AnySchemeTaken(trimmed: string) returns (scheme: string)
    ensures trimmed == scheme + AfterAny(trimmed) && SchemeBefore(scheme, AfterAny(trimmed))
  {
    hide SchemeBefore, AfterFirst;
    if AfterFirst(trimmed, "://").Some? {
      scheme := SchemeTaken(trimmed);
    } else {
      FirstNoneAfter(trimmed);
      NoneBefore(trimmed);
      scheme := "";
      assert "" + trimmed == trimmed;
    }
  }

  lemma NamedAs(entry: string)
    requires SiteHost(entry).Some?
    ensures var authority := Before(AfterAny(Text.Trim(entry)), "/?#");
            SiteHost(entry).value == Text.Lower(TrimDots(TrimStars(Before(AfterLast(authority, '@'), ":"))))
  {
    hide Before, AfterLast, TrimStars, TrimDots, AfterFirst, Text.Trim;
  }

  lemma PathTaken(rest: string) returns (path: string)
    ensures rest == Before(rest, "/?#") + path && (path == "" || path[0] in "/?#")
  {
    StoppedBy(rest, "/?#");
    path := rest[|Before(rest, "/?#")|..];
  }

  lemma Assembled(entry: string, w: Spelling, trimmed: string, rest: string)
    requires entry == w.lead + trimmed + w.tail && trimmed == w.scheme + rest && rest == Authority(w) + w.path
    ensures Entry(w) == entry && trimmed == w.scheme + (Authority(w) + w.path)
  {}

  /** Every accepted entry is its host, written in one of these ways. */
  lemma AcceptedIsWritten(entry: string) returns (w: Spelling)
    requires SiteHost(entry).Some?
    ensures Writes(w, SiteHost(entry).value) && Entry(w) == entry
  {
    SiteHostIsHost(entry);
    NamedAs(entry);
    hide SiteHost, Before, AfterLast, TrimStars, TrimDots, AfterAny, Text.Trim, Text.Trimmed, Text.AllSpace, IsHost, NoneOf;
    hide SchemeBefore, Authority, Entry;
    var lead, tail := Text.TrimTakes(entry);
    Text.TrimFacts(entry);
    var trimmed := Text.Trim(entry);
    var scheme := AnySchemeTaken(trimmed);
    var rest := AfterAny(trimmed);
    var path := PathTaken(rest);
    StoppedBy(rest, "/?#");
    var a := AuthorityTaken(Before(rest, "/?#"));
    w := Spelling(lead, scheme, a.user, a.stars, a.core, a.dots, a.port, path, tail);
    SameAuthority(a, w);
    Assembled(entry, w, trimmed, rest);
  }

  lemma SameAuthority(a: Spelling, w: Spelling)
    requires a.user == w.user && a.stars == w.stars && a.core == w.core && a.dots == w.dots && a.port == w.port
    ensures Authority(a) == Authority(w)
  {}

  /** The pieces of an authority. */
  lemma AuthorityTaken(authority: string) returns (w: Spelling)
    requires NoneOf(authority, "/?#")
    ensures Authority(w) == authority
    ensures w.core == TrimDots(TrimStars(Before(AfterLast(authority, '@'), ":")))
    ensures (w.user == "" || w.user[|w.user| - 1] == '@') && NoneOf(w.user, "/?#")
    ensures (w.port == "" || w.port[0] == ':') && NoneOf(w.port, "/?#@")
    ensures w.core == "*" ==> w.dots == 0
  {
    hide Before, AfterLast, TrimStars, TrimDots, Stars, Dots, NoneOf;
    UserTaken(authority);
    var afterUser := AfterLast(authority, '@');
    var user := authority[..|authority| - |afterUser|];
    assert authority == user + afterUser;
    StoppedBy(afterUser, ":");
    var named := Before(afterUser, ":");
    var port := afterUser[|named|..];
    assert afterUser == named + port;
    var stars := StarsTaken(named);
    var bare := TrimStars(named);
    var dots := DotsTaken(bare);
    w := Spelling("", "", user, stars, TrimDots(bare), dots, port, "", "");
    PartsPlain(authority, user, named, port);
    LoneStar(w.core, dots);
  }

  lemma NoneBefore(rest: string)
    requires forall k :: !At(rest, "://", k)
    ensures SchemeBefore("", rest)
  {}

  lemma PartsPlain(authority: string, user: string, named: string, port: string)
    requires authority == user + (named + port) && NoneOf(authority, "/?#") && '@' !in named + port
    ensures NoneOf(user, "/?#") && NoneOf(port, "/?#@")
  {
    forall k | 0 <= k < |user| ensures user[k] !in "/?#" {
      assert authority[k] == user[k];
    }
    forall k | 0 <= k < |port| ensures port[k] !in "/?#@" {
      assert authority[|user| + |named| + k] == port[k] && (named + port)[|named| + k] == port[k];
    }
  }

  lemma LoneStar(core: string, dots: nat)
    requires !("*." <= core + Dots(dots))
    ensures core == "*" ==> dots == 0
  {
    StarFirst(core + Dots(dots));
  }

  // Covering.

  /** `host` is the site, or what is left of it without the site ends in a dot. */
  predicate Covers(site: string, host: string) {
    || host == site
    || (EndsWith(host, site) && EndsWith(host[..|host| - |site|], "."))
  }

  predicate EndsWith<T(==)>(s: seq<T>, suffix: seq<T>) {
    |suffix| <= |s| && s[|s| - |suffix|..] == suffix
  }

  function Labels(host: string): seq<string> {
    Text.Split(host, '.')
  }

  /** A site covers a host exactly if its labels are the last of the host's. */
  lemma CoversIffLabels(site: string, host: string)
    ensures Covers(site, host) <==> EndsWith(Labels(host), Labels(site))
  {
    hide Text.Split, Text.Join;
    if Covers(site, host) && host != site {
      var before := host[..|host| - |site|];
      var pre := before[..|before| - 1];
      assert before == pre + ['.'] && host == pre + ['.'] + site;
      Text.SplitConcat(pre, site, '.');
    }
    if EndsWith(Labels(host), Labels(site)) {
      LabelsCover(site, host);
    }
  }

  lemma LabelsCover(site: string, host: string)
    requires EndsWith(Labels(host), Labels(site))
    ensures Covers(site, host)
  {
    hide Text.Split, Text.Join;
    var front := Labels(host)[..|Labels(host)| - |Labels(site)|];
    assert Labels(host) == front + Labels(site);
    Text.JoinSplit(host, '.');
    Text.JoinSplit(site, '.');
    if front == [] {
      assert front + Labels(site) == Labels(site);
    } else {
      Text.JoinConcat(front, Labels(site), '.');
      var pre := Text.Join(front, '.');
      assert host == pre + ['.'] + site;
      assert host[..|host| - |site|] == pre + ['.'];
      assert host[|host| - |site|..] == site;
    }
  }

  /** Two sites of one length that cover one host are the same. */
  lemma EqualCover(a: string, b: string, host: string)
    requires Covers(a, host) && Covers(b, host) && |a| == |b|
    ensures a == b
  {}

  // Pins.

  const PINNABLE_ENGINES := ["chrome", "webkit", "electron"]

  type Lists = seq<(string, seq<string>)>

  /** The first list under an engine's name. */
  function ListOf(lists: Lists, engine: string): Option<seq<string>> {
    if lists == [] then None
    else if lists[0].0 == engine then Some(lists[0].1)
    else ListOf(lists[1..], engine)
  }

  /** What an engine's list names. */
  function Named(entries: seq<string>): set<string> {
    set k | 0 <= k < |entries| && SiteHost(entries[k]).Some? :: SiteHost(entries[k]).value
  }

  /** The sites an engine is pinned to. */
  function PinnedTo(lists: Lists, engine: string): set<string> {
    var entries := ListOf(lists, engine);
    if entries.Some? then Named(entries.value) else {}
  }

  ghost predicate Candidate(lists: Lists, host: string, e: nat, site: string) {
    e < |PINNABLE_ENGINES| && site in PinnedTo(lists, PINNABLE_ENGINES[e]) && Covers(site, host)
  }

  /** The pin of a host: the longest site that covers it over all lists, and of the engines that
      list that site the first. */
  ghost predicate IsPin(lists: Lists, host: string, pin: Option<(string, string)>) {
    match pin
    case None => forall e: nat, site: string :: !Candidate(lists, host, e, site)
    case Some((engine, site)) =>
      exists e: nat :: Candidate(lists, host, e, site) && engine == PINNABLE_ENGINES[e] && Best(lists, host, e, site)
  }

  ghost predicate Best(lists: Lists, host: string, e: nat, site: string) {
    forall e': nat, site': string :: Candidate(lists, host, e', site') ==>
                          |site'| < |site| || (|site'| == |site| && e <= e')
  }

  /** There is one pin. */
  lemma PinIsUnique(lists: Lists, lists': Lists, host: string, a: Option<(string, string)>, b: Option<(string, string)>)
    requires forall e :: 0 <= e < |PINNABLE_ENGINES| ==>
                           PinnedTo(lists, PINNABLE_ENGINES[e]) == PinnedTo(lists', PINNABLE_ENGINES[e])
    requires IsPin(lists, host, a) && IsPin(lists', host, b)
    ensures a == b
  {
    forall e: nat, site: string ensures Candidate(lists, host, e, site) == Candidate(lists', host, e, site) {
    }
    if a.Some? && b.Some? {
      var e: nat :| Candidate(lists, host, e, a.value.1) && a.value.0 == PINNABLE_ENGINES[e]
                && Best(lists, host, e, a.value.1);
      var e': nat :| Candidate(lists', host, e', b.value.1) && b.value.0 == PINNABLE_ENGINES[e']
                 && Best(lists', host, e', b.value.1);
      assert Candidate(lists, host, e', b.value.1);
      assert Candidate(lists', host, e, a.value.1);
      EqualCover(a.value.1, b.value.1, host);
    }
  }

  /** What has been looked at: whole lists before engine `e`, and its first `k` entries. */
  ghost predicate Seen(lists: Lists, host: string, e: nat, k: nat, e': nat, site: string) {
    && Candidate(lists, host, e', site)
    && (e' < e
        || (e' == e && ListOf(lists, PINNABLE_ENGINES[e]).Some?
            && var entries := ListOf(lists, PINNABLE_ENGINES[e]).value;
            k <= |entries| && site in Named(entries[..k])))
  }

  ghost predicate BestSeen(lists: Lists, host: string, e: nat, k: nat, best: Option<(string, string)>) {
    match best
    case None => forall e': nat, site: string :: !Seen(lists, host, e, k, e', site)
    case Some((engine, site)) =>
      exists b: nat :: Seen(lists, host, e, k, b, site) && engine == PINNABLE_ENGINES[b] && BestOfSeen(lists, host, e, k, b, site)
  }

  ghost predicate BestOfSeen(lists: Lists, host: string, e: nat, k: nat, b: nat, site: string) {
    forall e': nat, site': string :: Seen(lists, host, e, k, e', site') ==>
                          |site'| < |site| || (|site'| == |site| && b <= e')
  }

  lemma NamedPush(entries: seq<string>, k: nat)
    requires k < |entries|
    ensures Named(entries[..k + 1])
         == Named(entries[..k]) + if SiteHost(entries[k]).Some? then {SiteHost(entries[k]).value} else {}
  {
    hide SiteHost;
    var a, b := Named(entries[..k + 1]), Named(entries[..k]);
    forall site | site in a ensures site in b || SiteHost(entries[k]) == Some(site) {
      var j :| 0 <= j <= k && SiteHost(entries[..k + 1][j]) == Some(site);
      if j < k {
        assert entries[..k][j] == entries[j];
      }
    }
    forall site | site in b ensures site in a {
      var j :| 0 <= j < k && SiteHost(entries[..k][j]) == Some(site);
      assert entries[..k + 1][j] == entries[j];
    }
    assert entries[..k + 1][k] == entries[k];
  }

  lemma NamedPart(entries: seq<string>, k: nat)
    requires k <= |entries|
    ensures Named(entries[..k]) <= Named(entries)
  {
    hide SiteHost;
    forall site | site in Named(entries[..k]) ensures site in Named(entries) {
      var j :| 0 <= j < k && SiteHost(entries[..k][j]) == Some(site);
      assert SiteHost(entries[j]) == Some(site);
    }
  }

  /** One entry: what it adds to what was seen, and what that makes the best. */
  lemma EntrySeen(lists: Lists, host: string, e: nat, k: nat, best: Option<(string, string)>, entries: seq<string>)
    requires e < |PINNABLE_ENGINES| && ListOf(lists, PINNABLE_ENGINES[e]) == Some(entries) && k < |entries|
    requires BestSeen(lists, host, e, k, best)
    ensures BestSeen(lists, host, e, k + 1, Considered(best, PINNABLE_ENGINES[e], entries[k], host))
  {
    hide SiteHost, Covers, Named;
    NamedPush(entries, k);
    NamedPart(entries, k + 1);
    var n := k + 1;
    var named := SiteHost(entries[k]);
    forall e': nat, site: string ensures Seen(lists, host, e, n, e', site)
                       <==> Seen(lists, host, e, k, e', site)
                            || (e' == e && named == Some(site) && Covers(site, host)) {
    }
    var next := Considered(best, PINNABLE_ENGINES[e], entries[k], host);
    if best.Some? {
      var b: nat :| Seen(lists, host, e, k, b, best.value.1) && best.value.0 == PINNABLE_ENGINES[b]
                     && BestOfSeen(lists, host, e, k, b, best.value.1);
      var c := if next == best then b else e;
      assert Seen(lists, host, e, n, c, next.value.1);
      forall e': nat, site: string | Seen(lists, host, e, n, e', site)
        ensures |site| < |next.value.1| || (|site| == |next.value.1| && c <= e') {
        if Seen(lists, host, e, k, e', site) {
          assert |site| < |best.value.1| || (|site| == |best.value.1| && b <= e');
        }
      }
    } else if next.Some? {
      assert Seen(lists, host, e, n, e, named.value);
      forall e': nat, site: string | Seen(lists, host, e, n, e', site) ensures e' == e && site == named.value {
        assert !Seen(lists, host, e, k, e', site);
      }
    } else {
      forall e': nat, site: string ensures !Seen(lists, host, e, n, e', site) {
        assert !Seen(lists, host, e, k, e', site);
      }
    }
  }

  /** The loop's step: a covering site replaces the best if it is longer. */
  function Considered(best: Option<(string, string)>, engine: string, entry: string, host: string)
    : Option<(string, string)>
  {
    var site := SiteHost(entry);
    if site.Some? && Covers(site.value, host) && (best.None? || |site.value| > |best.value.1|)
    then Some((engine, site.value)) else best
  }

  lemma SameSeen(lists: Lists, host: string, e: nat, k: nat, e': nat, k': nat, best: Option<(string, string)>)
    requires BestSeen(lists, host, e, k, best)
    requires forall i: nat, site: string :: Seen(lists, host, e, k, i, site) == Seen(lists, host, e', k', i, site)
    ensures BestSeen(lists, host, e', k', best)
  {
    if best.Some? {
      var b: nat :| Seen(lists, host, e, k, b, best.value.1) && best.value.0 == PINNABLE_ENGINES[b]
                && BestOfSeen(lists, host, e, k, b, best.value.1);
      assert Seen(lists, host, e', k', b, best.value.1);
      assert BestOfSeen(lists, host, e', k', b, best.value.1);
    }
  }

  /** Going over to the next engine, and beginning with it, changes nothing. */
  lemma EngineDone(lists: Lists, host: string, e: nat, k: nat, best: Option<(string, string)>)
    requires e < |PINNABLE_ENGINES| && BestSeen(lists, host, e, k, best)
    requires ListOf(lists, PINNABLE_ENGINES[e]).Some? ==> k == |ListOf(lists, PINNABLE_ENGINES[e]).value|
    ensures BestSeen(lists, host, e + 1, 0, best)
  {
    hide SiteHost, Covers;
    var list := ListOf(lists, PINNABLE_ENGINES[e]);
    if list.Some? {
      assert list.value[..k] == list.value;
    }
    if e + 1 < |PINNABLE_ENGINES| && ListOf(lists, PINNABLE_ENGINES[e + 1]).Some? {
      assert Named(ListOf(lists, PINNABLE_ENGINES[e + 1]).value[..0]) == {};
    }
    SameSeen(lists, host, e, k, e + 1, 0, best);
  }

  lemma AllSeen(lists: Lists, host: string, best: Option<(string, string)>)
    requires BestSeen(lists, host, |PINNABLE_ENGINES|, 0, best)
    ensures IsPin(lists, host, best)
  {
    hide SiteHost, Covers, PinnedTo;
    var n := |PINNABLE_ENGINES|;
    forall e: nat, site: string ensures Seen(lists, host, n, 0, e, site) == Candidate(lists, host, e, site) {
    }
    if best.Some? {
      var b: nat :| Seen(lists, host, n, 0, b, best.value.1) && best.value.0 == PINNABLE_ENGINES[b]
                && BestOfSeen(lists, host, n, 0, b, best.value.1);
      assert Best(lists, host, b, best.value.1);
    }
  }

  lemma NothingSeen(lists: Lists, host: string)
    ensures BestSeen(lists, host, 0, 0, None)
  {
    var list := ListOf(lists, PINNABLE_ENGINES[0]);
    if list.Some? {
      assert Named(list.value[..0]) == {};
    }
  }

  /** A list of any pinnable engine that holds a host, however written, pins it: nothing covers it better. */
  lemma WrittenHostIsPinned(lists: Lists, engine: string, w: Spelling, host: string, pin: Option<(string, string)>)
    requires engine in PINNABLE_ENGINES && ListOf(lists, engine).Some? && Entry(w) in ListOf(lists, engine).value
    requires Writes(w, host) && IsPin(lists, host, pin)
    ensures pin.Some? && pin.value.1 == host
  {
    hide SiteHost, Writes, Entry, IsHost;
    WrittenNamesHost(w, host);
    var entries := ListOf(lists, engine).value;
    var k :| 0 <= k < |entries| && entries[k] == Entry(w);
    var e: nat :| e < |PINNABLE_ENGINES| && PINNABLE_ENGINES[e] == engine;
    assert SiteHost(entries[k]).value in Named(entries);
    assert Candidate(lists, host, e, host);
    if pin.Some? {
      var b: nat :| Candidate(lists, host, b, pin.value.1) && pin.value.0 == PINNABLE_ENGINES[b]
                && Best(lists, host, b, pin.value.1);
      EqualCover(host, if |pin.value.1| == |host| then pin.value.1 else host, host);
    }
  }

  method PinnedEngine(urlHost: Option<string>, lists: Lists) returns (best: Option<(string, string)>)
    ensures urlHost.None? ==> best.None?
    ensures urlHost.Some? ==> IsPin(lists, urlHost.value, best)
  {
    hide SiteHost, Covers, BestSeen;
    if urlHost.None? {
      return None;
    }
    var host := urlHost.value;
    best := None;
    NothingSeen(lists, host);
    for e := 0 to |PINNABLE_ENGINES|
      invariant BestSeen(lists, host, e, 0, best)
    {
      var engine := PINNABLE_ENGINES[e];
      var list := ListOf(lists, engine);
      if list.Some? {
        for k := 0 to |list.value|
          invariant BestSeen(lists, host, e, k, best)
        {
          EntrySeen(lists, host, e, k, best, list.value);
          var site := SiteHost(list.value[k]);
          if site.Some? && Covers(site.value, host) && (best.None? || |site.value| > |best.value.1|) {
            best := Some((engine, site.value));
          }
        }
        EngineDone(lists, host, e, |list.value|, best);
      } else {
        EngineDone(lists, host, e, 0, best);
      }
    }
    AllSeen(lists, host, best);
  }

  /** The same entries, however ordered and however often. */
  ghost predicate SameEntries(a: seq<string>, b: seq<string>) {
    forall s :: s in a <==> s in b
  }

  /** Reordering or repeating entries inside a list changes no pin: only what the lists name does. */
  lemma OrderInListsIsIrrelevant(lists: Lists, lists': Lists, host: string,
                                 a: Option<(string, string)>, b: Option<(string, string)>)
    requires |lists| == |lists'|
    requires forall i :: 0 <= i < |lists| ==> lists[i].0 == lists'[i].0
    requires forall i :: 0 <= i < |lists| ==> SameEntries(lists[i].1, lists'[i].1)
    requires IsPin(lists, host, a) && IsPin(lists', host, b)
    ensures a == b
  {
    hide SiteHost, Covers, IsPin;
    forall e | 0 <= e < |PINNABLE_ENGINES|
      ensures PinnedTo(lists, PINNABLE_ENGINES[e]) == PinnedTo(lists', PINNABLE_ENGINES[e]) {
      SameLists(lists, lists', PINNABLE_ENGINES[e]);
    }
    PinIsUnique(lists, lists', host, a, b);
  }

  lemma {:induction false} SameLists(lists: Lists, lists': Lists, engine: string)
    requires |lists| == |lists'|
    requires forall i :: 0 <= i < |lists| ==> lists[i].0 == lists'[i].0
    requires forall i :: 0 <= i < |lists| ==> SameEntries(lists[i].1, lists'[i].1)
    ensures PinnedTo(lists, engine) == PinnedTo(lists', engine)
  {
    hide SiteHost;
    if lists != [] {
      if lists[0].0 == engine {
        NamedWithin(lists[0].1, lists'[0].1);
        NamedWithin(lists'[0].1, lists[0].1);
      } else {
        forall i | 0 <= i < |lists| - 1 ensures lists[1..][i] == lists[i + 1] && lists'[1..][i] == lists'[i + 1] {
        }
        SameLists(lists[1..], lists'[1..], engine);
      }
    }
  }

  lemma NamedWithin(a: seq<string>, b: seq<string>)
    requires SameEntries(a, b)
    ensures Named(a) <= Named(b)
  {
    hide SiteHost;
    forall site | site in Named(a) ensures site in Named(b) {
      var j :| 0 <= j < |a| && SiteHost(a[j]) == Some(site);
      assert a[j] in a && a[j] in b;
      var i :| 0 <= i < |b| && b[i] == a[j];
    }
  }

  /** `matching_site`: the first entry of one list that covers the host. */
  function MatchingSite(host: string, sites: seq<string>): Option<string> {
    if sites == [] then None
    else
      var site := SiteHost(sites[0]);
      if site.Some? && Covers(site.value, host) then site else MatchingSite(host, sites[1..])
  }

  /** The first covering entry decides. */
  lemma {:induction false} MatchIsFirst(host: string, sites: seq<string>, k: nat, site: string)
    requires k < |sites| && SiteHost(sites[k]) == Some(site) && Covers(site, host)
    requires forall j :: 0 <= j < k && SiteHost(sites[j]).Some? ==> !Covers(SiteHost(sites[j]).value, host)
    ensures MatchingSite(host, sites) == Some(site)
  {
    hide SiteHost, Covers;
    if k > 0 {
      assert forall j :: 0 <= j < |sites| - 1 ==> sites[1..][j] == sites[j + 1];
      MatchIsFirst(host, sites[1..], k - 1, site);
    }
  }

  /** And the first list under an engine's name is its list. */
  lemma {:induction false} ListIsFirst(before: Lists, engine: string, entries: seq<string>, after: Lists)
    requires forall i :: 0 <= i < |before| ==> before[i].0 != engine
    ensures ListOf(before + [(engine, entries)] + after, engine) == Some(entries)
  {
    if before != [] {
      assert (before + [(engine, entries)] + after)[1..] == before[1..] + [(engine, entries)] + after;
      ListIsFirst(before[1..], engine, entries, after);
    }
  }

  /** A list matches a host exactly if it pins it; the match is a covering entry, at most as long as
      the pin. */
  lemma MatchesIffPins(host: string, engine: string, sites: seq<string>, pin: Option<(string, string)>)
    requires engine in PINNABLE_ENGINES && IsPin([(engine, sites)], host, pin)
    ensures MatchingSite(host, sites).Some? <==> pin.Some?
    ensures pin.Some? ==> pin.value.0 == engine && |MatchingSite(host, sites).value| <= |pin.value.1|
  {
    hide SiteHost, Covers;
    MatchFacts(host, sites);
    var lists := [(engine, sites)];
    forall name ensures ListOf(lists, name) == if name == engine then Some(sites) else None {
      assert lists[1..] == [];
    }
    var e: nat :| 0 <= e < |PINNABLE_ENGINES| && PINNABLE_ENGINES[e] == engine;
    var found := MatchingSite(host, sites);
    if found.Some? {
      assert Candidate(lists, host, e, found.value);
    }
    if pin.Some? {
      var e': nat :| Candidate(lists, host, e', pin.value.1) && pin.value.0 == PINNABLE_ENGINES[e']
                 && Best(lists, host, e', pin.value.1);
    }
  }

  lemma {:induction false} MatchFacts(host: string, sites: seq<string>)
    ensures var found := MatchingSite(host, sites);
            && (found.Some? ==> found.value in Named(sites) && Covers(found.value, host))
            && (found.None? ==> forall site :: site in Named(sites) ==> !Covers(site, host))
  {
    hide SiteHost, Covers;
    if sites != [] {
      MatchFacts(host, sites[1..]);
      forall site | site in Named(sites) ensures site in Named(sites[1..]) || SiteHost(sites[0]) == Some(site) {
        var j :| 0 <= j < |sites| && SiteHost(sites[j]) == Some(site);
        if j > 0 {
          assert sites[1..][j - 1] == sites[j];
        }
      }
      forall site | site in Named(sites[1..]) ensures site in Named(sites) {
        var j :| 0 <= j < |sites| - 1 && SiteHost(sites[1..][j]) == Some(site);
        assert sites[j + 1] == sites[1..][j];
      }
    }
  }
}
