/**
 The settings: what a user types is stored in the file, and what the file, the environment or the
 default says is resolved. A whole number goes through a double; other numbers are reals. How text is
 read as a number or as JSON is given.
 */
module Settings {

  import opened Wrappers
  import opened SettingsFile
  import opened Doubles
  import Text

  datatype Kind = BoolKind | IntKind | FloatKind | PathKind | StringKind | ListKind

  datatype Json = JBool(b: bool) | JInt(n: int) | JFloat(x: real) | JStr(s: string) | JList(items: seq<string>)

  datatype Setting = Setting(
    key: string, kind: Kind, preset: Json, min: Option<real>, max: Option<real>, env: Option<string>)

  datatype Source = FromEnvironment | FromTheFile | Preset

  datatype Resolved = Resolved(value: Json, source: Source)

  /** How text is read: as a whole number, as a finite number, and as a JSON array of strings. */
  datatype Readers = Readers(
    whole: string -> Option<int>, number: string -> Option<real>, strings: string -> Option<seq<string>>)

  function Clamp(setting: Setting, n: real): real {
    var low := if setting.min.Some? && n < setting.min.value then setting.min.value else n;
    if setting.max.Some? && low > setting.max.value then setting.max.value else low
  }

  /** Half away from zero. */
  function Round(x: real): int {
    if x >= 0.0 then (x + 0.5).Floor else -(-x + 0.5).Floor
  }

  function ExpandHome(value: string, home: string): string {
    if value == "~" then home
    else if "~/" <= value then home + "/" + value[2..]
    else value
  }

  function Trimmed(parts: seq<string>): (r: seq<string>)
    ensures |r| == |parts| && forall k :: 0 <= k < |parts| ==> r[k] == Text.Trim(parts[k])
  {
    seq(|parts|, i requires 0 <= i < |parts| => Text.Trim(parts[i]))
  }

  function NonEmpty(parts: seq<string>): seq<string> {
    if parts == [] then []
    else (if parts[0] != "" then [parts[0]] else []) + NonEmpty(parts[1..])
  }

  /** Comma-separated, or a JSON array of strings. */
  function SplitList(raw: string, readers: Readers): seq<string> {
    var trimmed := Text.Trim(raw);
    if trimmed != "" && trimmed[0] == '[' && readers.strings(trimmed).Some?
    then NonEmpty(Trimmed(readers.strings(trimmed).value))
    else NonEmpty(Trimmed(Text.Split(raw, ',')))
  }

  function FromEnv(setting: Setting, raw: string, readers: Readers, home: string): Option<Json> {
    match setting.kind
    case BoolKind => Some(JBool(raw != "0" && raw != "false"))
    case IntKind =>
      var n := readers.number(Text.Trim(raw));
      if n.None? then None else Some(JInt(ToI64(Clamp(setting, Round(n.value) as real))))
    case FloatKind =>
      var n := readers.number(Text.Trim(raw));
      if n.None? then None else Some(JFloat(Clamp(setting, n.value)))
    case PathKind => Some(JStr(ExpandHome(raw, home)))
    case StringKind => Some(JStr(Text.Trim(raw)))
    case ListKind => Some(JList(SplitList(raw, readers)))
  }

  /** The strings of an array, trimmed, if it holds nothing else. */
  function AllStrings(items: seq<Value>): Option<seq<string>> {
    if items == [] then Some([])
    else if !items[0].Str? then None
    else
      var rest := AllStrings(items[1..]);
      if rest.None? then None else Some([Text.Trim(items[0].s)] + rest.value)
  }

  function FromFile(setting: Setting, item: Item, home: string): Option<Json> {
    if !item.Leaf? then None
    else
      var value := item.value;
      match setting.kind
      case BoolKind => if value.Boolean? then Some(JBool(value.b)) else None
      case PathKind => if value.Str? then Some(JStr(ExpandHome(value.s, home))) else None
      case StringKind => if value.Str? then Some(JStr(Text.Trim(value.s))) else None
      case ListKind =>
        if !value.Array? then None
        else (match AllStrings(value.items) case None => None case Some(items) => Some(JList(items)))
      case _ =>
        if !value.Integer? && !value.Float? then None
        else
          var number := if value.Integer? then ToDouble(value.n) as real else value.x;
          if setting.kind == IntKind then Some(JInt(ToI64(Clamp(setting, Round(number) as real))))
          else Some(JFloat(Clamp(setting, number)))
  }

  type Env = string -> Option<string>

  /** Environment before file before default. A layer that cannot be read as the setting's type is
      passed over. */
  function Resolve(setting: Setting, root: Entries, env: Env, readers: Readers, home: string): Resolved {
    var raw := if setting.env.Some? then env(setting.env.value) else None;
    var fromEnv := if raw.Some? && raw.value != "" then FromEnv(setting, raw.value, readers, home) else None;
    if fromEnv.Some? then Resolved(fromEnv.value, FromEnvironment)
    else
      var item := Get(Table(root, false), KeyParts(setting.key));
      var fromFile := if item.Some? then FromFile(setting, item.value, home) else None;
      if fromFile.Some? then Resolved(fromFile.value, FromTheFile)
      else Resolved(setting.preset, Preset)
  }

  datatype InputError = NotABool | NotAWholeNumber | NotANumber | OutOfRange

  predicate OutsideRange(setting: Setting, n: real) {
    (setting.min.Some? && n < setting.min.value) || (setting.max.Some? && n > setting.max.value)
  }

  function Strings(parts: seq<string>): (r: seq<Value>)
    ensures |r| == |parts| && forall k :: 0 <= k < |parts| ==> r[k] == Str(parts[k])
  {
    seq(|parts|, i requires 0 <= i < |parts| => Str(parts[i]))
  }

  /** What the user typed, read strictly: out of range is refused, not clamped. */
  function ParseInput(setting: Setting, raw: string, readers: Readers): Result<Value, InputError> {
    match setting.kind
    case BoolKind =>
      if raw == "true" || raw == "on" || raw == "yes" || raw == "1" then Success(Boolean(true))
      else if raw == "false" || raw == "off" || raw == "no" || raw == "0" then Success(Boolean(false))
      else Failure(NotABool)
    case IntKind =>
      var n := readers.whole(raw);
      if n.None? || n.value < I64_MIN || n.value > I64_MAX then Failure(NotAWholeNumber)
      else if OutsideRange(setting, ToDouble(n.value) as real) then Failure(OutOfRange)
      else Success(Integer(n.value))
    case FloatKind =>
      var n := readers.number(raw);
      if n.None? then Failure(NotANumber)
      else if OutsideRange(setting, n.value) then Failure(OutOfRange)
      else Success(Float(n.value))
    case PathKind => Success(Str(raw))
    case StringKind => Success(Str(Text.Trim(raw)))
    case ListKind => Success(Array(Strings(SplitList(raw, readers))))
  }

  /** What a stored value is meant to be once resolved: itself, and for a path its expansion. */
  function Meant(kind: Kind, value: Value, home: string): Option<Json> {
    match value
    case Boolean(b) => Some(JBool(b))
    case Integer(n) => Some(JInt(n))
    case Float(x) => Some(JFloat(x))
    case Str(s) => Some(JStr(if kind == PathKind then ExpandHome(s, home) else s))
    case Array(items) =>
      if forall k :: 0 <= k < |items| ==> items[k].Str? then Some(JList(Plain(items))) else None
    case Datetime(_) => None
  }

  function Plain(items: seq<Value>): seq<string>
    requires forall k :: 0 <= k < |items| ==> items[k].Str?
  {
    seq(|items|, i requires 0 <= i < |items| => items[i].s)
  }

  // Lists.

  predicate IsEntry(s: string) {
    s != "" && Text.Trimmed(s)
  }

  ghost predicate AreEntries(list: seq<string>) {
    forall k :: 0 <= k < |list| ==> IsEntry(list[k])
  }

  lemma {:induction false} NonEmptyKeeps(parts: seq<string>)
    ensures forall s :: s in NonEmpty(parts) <==> s in parts && s != ""
    ensures "" !in parts ==> NonEmpty(parts) == parts
  {
    if parts != [] {
      NonEmptyKeeps(parts[1..]);
      assert parts == [parts[0]] + parts[1..];
    }
  }

  /** Whichever way a list was written, its entries are trimmed and not empty. */
  lemma SplitListIsEntries(raw: string, readers: Readers)
    ensures AreEntries(SplitList(raw, readers))
  {
    hide Text.Trim, Text.Split;
    var trimmed := Text.Trim(raw);
    var parts := if trimmed != "" && trimmed[0] == '[' && readers.strings(trimmed).Some?
                 then readers.strings(trimmed).value else Text.Split(raw, ',');
    TrimmedPartsAreEntries(parts);
  }

  lemma TrimmedPartsAreEntries(parts: seq<string>)
    ensures AreEntries(NonEmpty(Trimmed(parts)))
  {
    hide Text.Trim, NonEmpty;
    var list := NonEmpty(Trimmed(parts));
    NonEmptyKeeps(Trimmed(parts));
    forall k | 0 <= k < |list| ensures IsEntry(list[k]) {
      assert list[k] in Trimmed(parts);
      var i :| 0 <= i < |parts| && Trimmed(parts)[i] == list[k];
      Text.TrimFacts(parts[i]);
    }
  }

  lemma EntryStays(s: string)
    requires IsEntry(s)
    ensures Text.Trim(s) == s
  {
    Text.TrimTrimmed(s);
  }

  lemma {:induction false} EntriesReadBack(list: seq<string>)
    requires AreEntries(list)
    ensures AllStrings(Strings(list)) == Some(list)
  {
    hide Text.Trim, IsEntry, Text.IsSpace;
    if list != [] {
      EntriesReadBack(list[1..]);
      var items := Strings(list);
      assert items[1..] == Strings(list[1..]) && items[0] == Str(list[0]);
      EntryStays(list[0]);
      assert list == [list[0]] + list[1..];
    }
  }

  /** A JSON array of strings is read as the array it is. */
  lemma JsonListReads(raw: string, list: seq<string>, readers: Readers)
    requires OpensBracket(raw) && readers.strings(Text.Trim(raw)) == Some(list) && AreEntries(list)
    ensures SplitList(raw, readers) == list
  {
    TrimmedEntries(list);
  }

  // Setting and resolving.

  lemma WholeStaysIff(setting: Setting, n: int)
    requires !OutsideRange(setting, ToDouble(n) as real) && I64_MIN <= n <= I64_MAX
    ensures ToI64(Clamp(setting, Round(ToDouble(n) as real) as real)) == n <==> KeepsDigits(n)
  {
    hide ToDouble, KeepsDigits, ToI64;
    assert Round(ToDouble(n) as real) == ToDouble(n);
    InRangeStays(setting, ToDouble(n) as real);
    ThroughDoubleIff(n);
  }

  /** A stored whole number a double cannot hold. */
  predicate LosesDigits(value: Value) {
    value.Integer? && !KeepsDigits(value.n)
  }

  /** With bounds below 2^53, as every setting of the program has, no accepted number does. */
  lemma BoundedKeepsDigits(setting: Setting, raw: string, readers: Readers)
    requires setting.min.Some? && setting.max.Some?
    requires -EXACT as real < setting.min.value && setting.max.value < EXACT as real
    requires ParseInput(setting, raw, readers).Success?
    ensures !LosesDigits(ParseInput(setting, raw, readers).value)
  {
    hide KeepsDigits, ToDouble, SplitList;
    if setting.kind == IntKind {
      SmallKeepsDigits(readers.whole(raw).value);
    }
  }

  lemma StoredNumberReadsBack(setting: Setting, raw: string, readers: Readers, home: string)
    requires setting.kind == IntKind || setting.kind == FloatKind
    requires ParseInput(setting, raw, readers).Success?
    ensures var value := ParseInput(setting, raw, readers).value;
            var meant := Meant(setting.kind, value, home);
            && meant.Some? && FromFile(setting, Leaf(value), home).Some?
            && (FromFile(setting, Leaf(value), home) == meant <==> !LosesDigits(value))
  {
    hide ToI64, Round, Clamp, ToDouble, KeepsDigits;
    if setting.kind == IntKind {
      WholeStaysIff(setting, readers.whole(raw).value);
    } else {
      InRangeStays(setting, readers.number(raw).value);
    }
  }

  lemma InRangeStays(setting: Setting, x: real)
    requires !OutsideRange(setting, x)
    ensures Clamp(setting, x) == x
  {}

  lemma StoredListReadsBack(setting: Setting, raw: string, readers: Readers, home: string)
    requires setting.kind == ListKind
    ensures var list := SplitList(raw, readers);
            && FromFile(setting, Leaf(Array(Strings(list))), home) == Some(JList(list))
            && Meant(ListKind, Array(Strings(list)), home) == Some(JList(list))
  {
    hide SplitList, AllStrings;
    var list := SplitList(raw, readers);
    SplitListIsEntries(raw, readers);
    EntriesReadBack(list);
    assert Plain(Strings(list)) == list;
  }

  lemma ListInput(setting: Setting, raw: string, readers: Readers)
    requires setting.kind == ListKind
    ensures ParseInput(setting, raw, readers) == Success(Array(Strings(SplitList(raw, readers))))
  {}

  lemma StoredBoolReadsBack(setting: Setting, raw: string, readers: Readers, home: string)
    requires setting.kind == BoolKind && ParseInput(setting, raw, readers).Success?
    ensures var value := ParseInput(setting, raw, readers).value;
            var meant := Meant(BoolKind, value, home);
            meant.Some? && FromFile(setting, Leaf(value), home) == meant
  {
    hide SplitList, ExpandHome, AllStrings, ToI64, Round, Clamp, OutsideRange;
    hide Text.Trim;
  }

  lemma BoolInput(setting: Setting, raw: string, readers: Readers)
    requires setting.kind == BoolKind && ParseInput(setting, raw, readers).Success?
    ensures ParseInput(setting, raw, readers).value.Boolean?
  {
    hide SplitList, OutsideRange, Text.Trim;
  }

  lemma StoredPathReadsBack(setting: Setting, raw: string, readers: Readers, home: string)
    requires setting.kind == PathKind
    ensures ParseInput(setting, raw, readers) == Success(Str(raw))
    ensures FromFile(setting, Leaf(Str(raw)), home) == Meant(PathKind, Str(raw), home) == Some(JStr(ExpandHome(raw, home)))
  {
    hide SplitList, ExpandHome, AllStrings, ToI64, Round, Clamp, OutsideRange;
    hide Text.Trim;
  }

  lemma StringInput(setting: Setting, raw: string, readers: Readers)
    requires setting.kind == StringKind
    ensures ParseInput(setting, raw, readers) == Success(Str(Text.Trim(raw)))
  {
    hide SplitList, OutsideRange, Text.Trim;
  }

  lemma StringFromFile(setting: Setting, s: string, home: string)
    requires setting.kind == StringKind
    ensures FromFile(setting, Leaf(Str(s)), home) == Some(JStr(Text.Trim(s)))
    ensures Meant(StringKind, Str(s), home) == Some(JStr(s))
  {
    hide ExpandHome, AllStrings, ToI64, Round, Clamp, Text.Trim, ToDouble;
  }

  lemma StoredStringReadsBack(setting: Setting, raw: string, readers: Readers, home: string)
    requires setting.kind == StringKind
    ensures var s := Text.Trim(raw);
            && ParseInput(setting, raw, readers) == Success(Str(s))
            && FromFile(setting, Leaf(Str(s)), home) == Meant(StringKind, Str(s), home) == Some(JStr(s))
  {
    hide ParseInput, FromFile, Meant, Text.Trim, Text.Trimmed;
    StringInput(setting, raw, readers);
    StringFromFile(setting, Text.Trim(raw), home);
    Text.TrimFacts(raw);
    Text.TrimTrimmed(Text.Trim(raw));
  }

  /** Whatever is accepted is read back from the file as exactly what it is meant to be, clamping and
      trimming finding nothing to do, unless it is a whole number a double cannot hold. */
  lemma StoredReadsBackIff(setting: Setting, raw: string, readers: Readers, home: string)
    requires ParseInput(setting, raw, readers).Success?
    ensures var value := ParseInput(setting, raw, readers).value;
            var meant := Meant(setting.kind, value, home);
            && meant.Some? && FromFile(setting, Leaf(value), home).Some?
            && (FromFile(setting, Leaf(value), home) == meant <==> !LosesDigits(value))
  {
    hide ParseInput, Meant, FromFile;
    hide KeepsDigits, ToDouble;
    if setting.kind == IntKind || setting.kind == FloatKind {
      StoredNumberReadsBack(setting, raw, readers, home);
    } else if setting.kind == ListKind {
      StoredListReadsBack(setting, raw, readers, home);
      ListInput(setting, raw, readers);
    } else if setting.kind == BoolKind {
      StoredBoolReadsBack(setting, raw, readers, home);
      BoolInput(setting, raw, readers);
    } else if setting.kind == PathKind {
      StoredPathReadsBack(setting, raw, readers, home);
    } else {
      StoredStringReadsBack(setting, raw, readers, home);
    }
  }

  predicate NoEnv(setting: Setting, env: Env) {
    setting.env.None? || env(setting.env.value) in {None, Some("")}
  }

  /** What the user sets is what a pane gets: any accepted input, stored, resolves without an
      environment value to source "file" and, unless it loses digits, exactly what was meant. It can be
      stored exactly if no table on the key's way is inline. */
  lemma SetThenResolve(setting: Setting, raw: string, root: Entries, env: Env, readers: Readers, home: string)
    requires ParseInput(setting, raw, readers).Success? && NoEnv(setting, env)
    ensures var value := ParseInput(setting, raw, readers).value;
            var meant := Meant(setting.kind, value, home);
            var parts := KeyParts(setting.key);
            var stored := Put(root, parts, value);
            && meant.Some?
            && (stored.Some? <==> forall k :: 0 < k < |parts| ==> !InlineAfter(root, parts, k))
            && (stored.Some? ==>
                  && Resolve(setting, stored.value, env, readers, home).source == FromTheFile
                  && (Resolve(setting, stored.value, env, readers, home).value == meant.value <==> !LosesDigits(value)))
  {
    hide ParseInput, FromFile, FromEnv, Meant, Put, Get, InlineAfter, LosesDigits;
    StoredReadsBackIff(setting, raw, readers, home);
    var value := ParseInput(setting, raw, readers).value;
    PutSucceedsIff(root, KeyParts(setting.key), value);
    if Put(root, KeyParts(setting.key), value).Some? {
      GetPut(root, KeyParts(setting.key), value);
    }
  }

  /** Setting one key leaves every setting alone that is neither a table on its way nor below it. */
  lemma OthersResolveAsBefore(setting: Setting, key: string, value: Value, root: Entries, env: Env, readers: Readers,
                              home: string)
    requires Unrelated(key, setting.key)
    ensures var put := Put(root, KeyParts(key), value);
            put.Some? ==> Resolve(setting, put.value, env, readers, home) == Resolve(setting, root, env, readers, home)
    ensures Resolve(setting, Drop(root, KeyParts(key)), env, readers, home)
         == Resolve(setting, root, env, readers, home)
  {
    if Put(root, KeyParts(key), value).Some? {
      GetOther(root, KeyParts(key), value, KeyParts(setting.key));
    }
    GetOtherDropped(root, KeyParts(key), KeyParts(setting.key));
  }

  /** Removing a setting restores its default, whatever the file said. */
  lemma RemoveRestoresDefault(setting: Setting, root: Entries, env: Env, readers: Readers, home: string)
    requires NoEnv(setting, env)
    ensures Resolve(setting, Drop(root, KeyParts(setting.key)), env, readers, home)
         == Resolved(setting.preset, Preset)
  {
    GetDropped(root, KeyParts(setting.key));
  }

  // What the layers say, kind by kind.

  /** Half away from zero: the nearest whole number. */
  lemma RoundIs(x: real)
    ensures -0.5 <= Round(x) as real - x <= 0.5
    ensures Round(x) as real - x == 0.5 ==> x > 0.0
    ensures Round(x) as real - x == -0.5 ==> x < 0.0
  {}

  /** Between the bounds, and nowhere nearer to the number than that. */
  lemma ClampIs(setting: Setting, x: real, y: real)
    requires !OutsideRange(setting, y)
    ensures var c := Clamp(setting, x);
            && !OutsideRange(setting, c)
            && (if c <= x then x - c else c - x) <= (if y <= x then x - y else y - x)
  {}

  /** A number brought to a whole one and into the bounds, as 64 bits hold it. */
  ghost predicate Whole(setting: Setting, x: real, n: int) {
    n == ToI64(Clamp(setting, Round(x) as real))
  }

  /** Where the text begins with the home sign it is the home directory, and otherwise the text. */
  ghost predicate Expanded(raw: string, home: string, path: string) {
    || (raw == "~" && path == home)
    || (exists rest :: raw == "~/" + rest && path == home + "/" + rest)
    || (raw != "~" && !("~/" <= raw) && path == raw)
  }

  lemma ExpandIs(raw: string, home: string, path: string)
    ensures ExpandHome(raw, home) == path <==> Expanded(raw, home, path)
  {
    if "~/" <= raw {
      assert raw == "~/" + raw[2..] && "~/"[1] == '/';
      forall rest | raw == "~/" + rest ensures rest == raw[2..] {}
    }
  }

  ghost predicate TrimmedTo(raw: string, s: string) {
    Text.Trimmed(s) && exists lead, tail :: raw == lead + s + tail && Text.AllSpace(lead) && Text.AllSpace(tail)
  }

  lemma TrimIs(raw: string, s: string)
    ensures Text.Trim(raw) == s <==> TrimmedTo(raw, s)
  {
    hide Text.Trim, Text.AllSpace, Text.Trimmed;
    Text.TrimFacts(raw);
    var lead, tail := Text.TrimTakes(raw);
    if lead, tail :| raw == lead + s + tail && Text.AllSpace(lead) && Text.AllSpace(tail) && Text.Trimmed(s) {
      Text.TrimAround(lead, s, tail);
    }
  }

  /** What an environment variable means to a setting: off is `0` or `false` and nothing else; numbers are
      read and brought into the bounds; paths are expanded, strings trimmed, lists split. */
  ghost predicate EnvMeans(setting: Setting, raw: string, readers: Readers, home: string, value: Json) {
    match setting.kind
    case BoolKind => value == JBool(raw != "0" && raw != "false")
    case IntKind =>
      exists text, x :: TrimmedTo(raw, text) && readers.number(text) == Some(x) && value.JInt? && Whole(setting, x, value.n)
    case FloatKind =>
      exists text, x :: TrimmedTo(raw, text) && readers.number(text) == Some(x) && value == JFloat(Clamp(setting, x))
    case PathKind => value.JStr? && Expanded(raw, home, value.s)
    case StringKind => value.JStr? && TrimmedTo(raw, value.s)
    case ListKind => value == JList(SplitList(raw, readers))
  }

  lemma EnvSays(setting: Setting, raw: string, readers: Readers, home: string, value: Json)
    ensures FromEnv(setting, raw, readers, home) == Some(value) <==> EnvMeans(setting, raw, readers, home, value)
  {
    hide SplitList, Clamp, Round, ToI64, Text.Trim, ExpandHome, TrimmedTo, Expanded;
    match setting.kind
    case PathKind =>
      if value.JStr? { ExpandIs(raw, home, value.s); }
    case StringKind =>
      if value.JStr? { TrimIs(raw, value.s); }
    case IntKind => NumberText(raw);
    case FloatKind => NumberText(raw);
    case _ =>
  }

  lemma NumberText(raw: string)
    ensures forall text :: TrimmedTo(raw, text) <==> text == Text.Trim(raw)
  {
    hide Text.Trim, TrimmedTo;
    forall text ensures TrimmedTo(raw, text) <==> text == Text.Trim(raw) {
      TrimIs(raw, text);
    }
  }

  /** The environment comes first: where it can be read as the setting's kind, that is the answer, whatever
      the file holds. */
  lemma EnvironmentFirst(setting: Setting, raw: string, value: Json, root: Entries, env: Env, readers: Readers, home: string)
    requires setting.env.Some? && env(setting.env.value) == Some(raw) && raw != ""
    requires EnvMeans(setting, raw, readers, home, value)
    ensures Resolve(setting, root, env, readers, home) == Resolved(value, FromEnvironment)
  {
    hide FromEnv, EnvMeans;
    EnvSays(setting, raw, readers, home, value);
  }

  /** Where it cannot, or is empty, the answer is what it would be without. */
  lemma UnreadableEnvironment(setting: Setting, root: Entries, env: Env, readers: Readers, home: string)
    requires setting.env.Some? && env(setting.env.value).Some?
    requires var raw := env(setting.env.value).value;
             raw == "" || forall value :: !EnvMeans(setting, raw, readers, home, value)
    ensures Resolve(setting, root, env, readers, home) == Resolve(setting.(env := None), root, env, readers, home)
  {
    hide FromEnv, EnvMeans, FromFile, Get, KeyParts;
    var raw := env(setting.env.value).value;
    if FromEnv(setting, raw, readers, home).Some? {
      EnvSays(setting, raw, readers, home, FromEnv(setting, raw, readers, home).value);
    }
    FileApart(setting, root, home);
  }

  lemma FileApart(setting: Setting, root: Entries, home: string)
    ensures forall item :: FromFile(setting.(env := None), item, home) == FromFile(setting, item, home)
  {}

  /** What a value in the file means: a value of the setting's own type, numbers of either type for numbers,
      lists of strings alone. */
  ghost predicate FileMeans(setting: Setting, value: Value, home: string, json: Json) {
    match setting.kind
    case BoolKind => value.Boolean? && json == JBool(value.b)
    case IntKind =>
      json.JInt? && ((value.Float? && Whole(setting, value.x, json.n))
                     || (value.Integer? && Whole(setting, ToDouble(value.n) as real, json.n)))
    case FloatKind =>
      || (value.Float? && json == JFloat(Clamp(setting, value.x)))
      || (value.Integer? && json == JFloat(Clamp(setting, ToDouble(value.n) as real)))
    case PathKind => value.Str? && json.JStr? && Expanded(value.s, home, json.s)
    case StringKind => value.Str? && json.JStr? && TrimmedTo(value.s, json.s)
    case ListKind => value.Array? && json.JList? && ItemsTrimmedTo(value.items, json.items)
  }

  ghost predicate ItemTrimmedTo(item: Value, s: string) {
    item.Str? && TrimmedTo(item.s, s)
  }

  ghost predicate ItemsTrimmedTo(items: seq<Value>, list: seq<string>) {
    |list| == |items| && forall k :: 0 <= k < |list| ==> ItemTrimmedTo(items[k], list[k])
  }

  lemma FirstItem(items: seq<Value>, list: seq<string>)
    requires items != [] && list != []
    ensures ItemsTrimmedTo(items, list) <==> ItemTrimmedTo(items[0], list[0]) && ItemsTrimmedTo(items[1..], list[1..])
  {
    hide ItemTrimmedTo;
    var a, b := items[1..], list[1..];
    if ItemTrimmedTo(items[0], list[0]) && ItemsTrimmedTo(a, b) {
      forall k | 0 <= k < |list| ensures ItemTrimmedTo(items[k], list[k]) {
        if k > 0 {
          assert ItemTrimmedTo(a[k - 1], b[k - 1]);
        }
      }
    }
  }

  lemma {:induction false} AllStringsIs(items: seq<Value>, list: seq<string>)
    ensures AllStrings(items) == Some(list) <==> ItemsTrimmedTo(items, list)
    decreases |items|
  {
    hide Text.Trim, TrimmedTo, ItemsTrimmedTo;
    if items == [] || list == [] {
      SomeItem(items, list);
    } else {
      AllStringsIs(items[1..], list[1..]);
      FirstItem(items, list);
      if items[0].Str? {
        TrimIs(items[0].s, list[0]);
      }
      assert list == [list[0]] + list[1..];
    }
  }

  lemma SomeItem(items: seq<Value>, list: seq<string>)
    requires items == [] || list == []
    ensures ItemsTrimmedTo(items, list) <==> items == [] && list == []
  {}

  /** The file comes before the default, where it holds something of the setting's kind. */
  lemma FileBeforeDefault(setting: Setting, root: Entries, env: Env, readers: Readers, home: string)
    requires NoEnv(setting, env)
    ensures var found := Get(Table(root, false), KeyParts(setting.key));
            var resolved := Resolve(setting, root, env, readers, home);
            || (resolved.source == FromTheFile && found.Some? && found.value.Leaf? &&
                FileMeans(setting, found.value.value, home, resolved.value))
            || (resolved == Resolved(setting.preset, Preset) &&
                forall value, json :: found == Some(Leaf(value)) ==> !FileMeans(setting, value, home, json))
  {
    hide FromFile, FileMeans, Get, KeyParts;
    var found := Get(Table(root, false), KeyParts(setting.key));
    if found.Some? {
      forall json ensures FromFile(setting, found.value, home) == Some(json) <==>
                          found.value.Leaf? && FileMeans(setting, found.value.value, home, json) {
        FileSays(setting, found.value, home, json);
      }
    }
  }

  lemma FileSays(setting: Setting, item: Item, home: string, json: Json)
    ensures FromFile(setting, item, home) == Some(json) <==> item.Leaf? && FileMeans(setting, item.value, home, json)
  {
    hide Clamp, Round, ToI64, ToDouble, Text.Trim, ExpandHome, TrimmedTo, Expanded, AllStrings;
    if item.Leaf? {
      var value := item.value;
      match setting.kind
      case PathKind =>
        if value.Str? && json.JStr? { ExpandIs(value.s, home, json.s); }
      case StringKind =>
        if value.Str? && json.JStr? { TrimIs(value.s, json.s); }
      case ListKind =>
        if value.Array? && json.JList? { AllStringsIs(value.items, json.items); }
      case _ =>
    }
  }

  /** What may be typed for a setting, and what it is taken for. */
  lemma InputMeans(setting: Setting, raw: string, readers: Readers)
    ensures var input := ParseInput(setting, raw, readers);
            match setting.kind
            case BoolKind =>
              if raw in {"true", "on", "yes", "1"} then input == Success(Boolean(true))
              else if raw in {"false", "off", "no", "0"} then input == Success(Boolean(false))
              else input == Failure(NotABool)
            case IntKind =>
              && (input.Success? ==> input.value.Integer? && readers.whole(raw) == Some(input.value.n))
              && (input == Failure(NotAWholeNumber) <==>
                    readers.whole(raw).None? || !(-0x8000_0000_0000_0000 <= readers.whole(raw).value <= 0x7fff_ffff_ffff_ffff))
              && (input.Failure? ==> input.error in {NotAWholeNumber, OutOfRange})
              && (input == Failure(OutOfRange) ==> OutsideRange(setting, ToDouble(readers.whole(raw).value) as real))
              && (input.Success? ==> !OutsideRange(setting, ToDouble(readers.whole(raw).value) as real))
            case FloatKind =>
              && (input == Failure(NotANumber) <==> readers.number(raw).None?)
              && (input.Failure? ==> input.error in {NotANumber, OutOfRange})
              && (input == Failure(OutOfRange) ==> OutsideRange(setting, readers.number(raw).value))
              && (input.Success? ==> readers.number(raw).Some? && input.value == Float(readers.number(raw).value)
                                     && !OutsideRange(setting, readers.number(raw).value))
            case PathKind => input == Success(Str(raw))
            case StringKind => input.Success? && input.value.Str? && TrimmedTo(raw, input.value.s)
            case ListKind => input == Success(Array(Strings(SplitList(raw, readers))))
  {
    hide SplitList, OutsideRange, ToDouble, TrimmedTo, Text.Trim;
    TrimIs(raw, Text.Trim(raw));
  }

  // Showing a list.

  /** A resolved list as it is shown. */
  function Display(list: seq<string>): string {
    if list == [] then "[]" else Text.Join(list, ',')
  }

  lemma {:induction false} TrimmedEntries(list: seq<string>)
    requires AreEntries(list)
    ensures NonEmpty(Trimmed(list)) == list
  {
    hide Text.Trim;
    forall k | 0 <= k < |list| ensures Trimmed(list)[k] == list[k] {
      assert IsEntry(list[k]);
      Text.TrimTrimmed(list[k]);
    }
    assert Trimmed(list) == list;
    forall k | 0 <= k < |list| ensures list[k] != "" {
      assert IsEntry(list[k]);
    }
    NonEmptyKeeps(list);
  }

  /** Nothing that comes from splitting at commas has a comma in it. */
  lemma PartsHaveNoComma(raw: string)
    ensures forall s :: s in NonEmpty(Trimmed(Text.Split(raw, ','))) ==> ',' !in s
  {
    hide Text.Trim, NonEmpty;
    var parts := Text.Split(raw, ',');
    NonEmptyKeeps(Trimmed(parts));
    forall s | s in Trimmed(parts) ensures ',' !in s {
      var i :| 0 <= i < |parts| && Trimmed(parts)[i] == s;
      TrimWithin(parts[i], ',');
    }
  }

  lemma TrimWithin(s: string, c: char)
    requires c !in s
    ensures c !in Text.Trim(s)
  {
    hide Text.TrimStart, Text.TrimEnd;
    var t := Text.TrimStart(s);
    var r := Text.Trim(s);
    forall k | 0 <= k < |r| ensures r[k] != c {
      assert r[k] == t[k] == s[|s| - |t| + k];
    }
  }

  predicate OpensBracket(s: string) {
    var t := Text.Trim(s);
    t != "" && t[0] == '['
  }

  /** A list that is shown and does not begin with a bracket is read back from what is shown exactly
      if all its entries are trimmed, not empty and without a comma. */
  lemma ShownListReadsBackIff(list: seq<string>, readers: Readers)
    requires list != [] && !OpensBracket(Display(list))
    ensures SplitList(Display(list), readers) == list
       <==> AreEntries(list) && forall k :: 0 <= k < |list| ==> ',' !in list[k]
  {
    hide Text.Trim, Text.Split, Text.Join, NonEmpty;
    var shown := Display(list);
    assert SplitList(shown, readers) == NonEmpty(Trimmed(Text.Split(shown, ',')));
    if AreEntries(list) && forall k :: 0 <= k < |list| ==> ',' !in list[k] {
      Text.SplitJoin(list, ',');
      TrimmedEntries(list);
    }
    if SplitList(shown, readers) == list {
      SplitListIsEntries(shown, readers);
      PartsHaveNoComma(shown);
      forall k | 0 <= k < |list| ensures ',' !in list[k] {
        assert list[k] in list;
      }
    }
  }

  /** An entry list whose first entry does not begin with a bracket is shown without one. */
  lemma FirstEntryDecides(list: seq<string>)
    requires list != [] && AreEntries(list)
    ensures OpensBracket(Display(list)) <==> list[0][0] == '['
  {
    hide Text.TrimEnd, Text.Join;
    var shown := Text.Join(list, ',');
    assert IsEntry(list[0]);
    ShownBegins(list);
    Text.TrimFacts(shown);
    assert Text.TrimStart(shown) == shown;
    assert !Text.AllSpace(shown) by {
      assert !Text.IsSpace(shown[0]);
    }
    assert Text.Trim(shown) <= shown;
  }

  lemma ShownBegins(list: seq<string>)
    requires list != [] && list[0] != ""
    ensures Text.Join(list, ',') != "" && Text.Join(list, ',')[0] == list[0][0]
  {}

  /** The empty list is shown as an empty array and read back as one by a reader of JSON. */
  lemma EmptyListReadsBack(readers: Readers)
    requires readers.strings("[]") == Some([])
    ensures SplitList(Display([]), readers) == []
  {
    Text.TrimTrimmed("[]");
  }
}
