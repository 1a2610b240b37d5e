/**
 The settings file as a tree of nested tables: what reading, setting and removing a dotted key come
 to. A table is a map; comments and order are not kept here.
 */
module SettingsFile {

  import opened Wrappers
  import Text

  datatype Value =
    | Boolean(b: bool)
    | Integer(n: int)
    | Float(x: real)
    | Str(s: string)
    | Array(items: seq<Value>)
    | Datetime(text: string)

  type Entries = map<string, Item>

  /** A value, a table (`inline` if it is written in braces), or an array of tables, which no dotted
      key goes into. */
  datatype Item = Leaf(value: Value) | Table(entries: Entries, inline: bool) | Tables

  type Parts = parts: seq<string> | parts != [] witness [""]

  function KeyParts(key: string): Parts {
    Text.Split(key, '.')
  }

  /** The parts of a key are what its dots separate. */
  lemma KeyPartsAre(parts: Parts, key: string)
    requires forall k :: 0 <= k < |parts| ==> '.' !in parts[k]
    ensures KeyParts(key) == parts <==> key == Text.Join(parts, '.')
  {
    Text.SplitJoin(parts, '.');
    Text.JoinSplit(key, '.');
  }

  function Get(item: Item, parts: seq<string>): Option<Item>
    decreases |parts|
  {
    if parts == [] then Some(item)
    else if item.Table? && parts[0] in item.entries then Get(item.entries[parts[0]], parts[1..])
    else None
  }

  function SubTable(entries: Entries, name: string): Entries {
    if name in entries && entries[name].Table? then entries[name].entries else map[]
  }

  predicate Inline(entries: Entries, name: string) {
    name in entries && entries[name].Table? && entries[name].inline
  }

  /** Tables on the way are made where there are none, and what else is in the way is replaced. None
      if an inline table is: it passes for a table and then cannot be walked into as one. */
  function Put(entries: Entries, parts: Parts, value: Value): Option<Entries>
    decreases |parts|
  {
    if |parts| == 1 then Some(entries[parts[0] := Leaf(value)])
    else if Inline(entries, parts[0]) then None
    else
      var below := Put(SubTable(entries, parts[0]), parts[1..], value);
      if below.None? then None else Some(entries[parts[0] := Table(below.value, false)])
  }

  /** The first `k` parts lead to an inline table. */
  predicate InlineAfter(entries: Entries, parts: Parts, k: nat)
    requires k <= |parts|
  {
    var item := Get(Table(entries, false), parts[..k]);
    item.Some? && item.value.Table? && item.value.inline
  }

  lemma InlineBelow(entries: Entries, parts: Parts, k: nat)
    requires 1 < k <= |parts|
    ensures InlineAfter(entries, parts, k) == InlineAfter(SubTable(entries, parts[0]), parts[1..], k - 1)
  {
    hide Get;
    assert parts[..k][1..] == parts[1..][..k - 1];
    GetBelow(entries, parts[..k]);
  }

  lemma InlineIgnored(entries: Entries, parts: Parts, inline: bool)
    ensures Get(Table(entries, inline), parts) == Get(Table(entries, false), parts)
  {}

  /** Going into what is under a name, a table or not. */
  lemma GetBelow(entries: Entries, parts: Parts)
    requires |parts| > 1
    ensures Get(Table(entries, false), parts) == Get(Table(SubTable(entries, parts[0]), false), parts[1..])
  {
    if parts[0] in entries {
      var item := entries[parts[0]];
      if item.Table? {
        InlineIgnored(item.entries, parts[1..], item.inline);
      }
    }
  }

  lemma InlineFirst(entries: Entries, parts: Parts)
    ensures InlineAfter(entries, parts, 1) == Inline(entries, parts[0])
  {
    var first := parts[..1];
    assert first == [parts[0]] && first[1..] == [];
    if parts[0] in entries {
      assert Get(entries[parts[0]], []) == Some(entries[parts[0]]);
    }
  }

  /** A key can be set exactly if none of the tables that lead to it is inline. */
  lemma {:induction false} PutSucceedsIff(entries: Entries, parts: Parts, value: Value)
    ensures Put(entries, parts, value).Some? <==> forall k :: 0 < k < |parts| ==> !InlineAfter(entries, parts, k)
    decreases |parts|
  {
    hide InlineAfter, Get;
    if |parts| > 1 {
      InlineFirst(entries, parts);
      var sub := SubTable(entries, parts[0]);
      PutSucceedsIff(sub, parts[1..], value);
      forall k | 1 < k < |parts| ensures InlineAfter(entries, parts, k) == InlineAfter(sub, parts[1..], k - 1) {
        InlineBelow(entries, parts, k);
      }
      if k: nat :| 0 < k < |parts| - 1 && InlineAfter(sub, parts[1..], k) {
        assert InlineAfter(entries, parts, k + 1);
      }
    }
  }

  lemma {:induction false} PutIntoNothing(parts: Parts, value: Value)
    ensures Put(map[], parts, value).Some?
    decreases |parts|
  {
    if |parts| > 1 {
      PutIntoNothing(parts[1..], value);
    }
  }

  /** A settings file for which the program stops at `set`: `scroll = { distance = 1 }`. */
  lemma InlineTableStopsSet(n: int, value: Value)
    ensures Put(map["scroll" := Table(map["distance" := Leaf(Integer(n))], true)], ["scroll", "distance"], value) == None
  {}

  function Drop(entries: Entries, parts: Parts): Entries
    decreases |parts|
  {
    if |parts| == 1 then entries - {parts[0]}
    else if parts[0] in entries && entries[parts[0]].Table? then
      entries[parts[0] := Table(Drop(entries[parts[0]].entries, parts[1..]), entries[parts[0]].inline)]
    else entries
  }

  /** Neither key leads to the other. */
  predicate Unrelated(a: string, b: string) {
    !(KeyParts(a) <= KeyParts(b)) && !(KeyParts(b) <= KeyParts(a))
  }

  lemma {:induction false} GetPut(entries: Entries, parts: Parts, value: Value)
    requires Put(entries, parts, value).Some?
    ensures Get(Table(Put(entries, parts, value).value, false), parts) == Some(Leaf(value))
    decreases |parts|
  {
    if |parts| > 1 {
      GetPut(SubTable(entries, parts[0]), parts[1..], value);
    }
  }

  lemma TailsUnrelated(p: Parts, q: Parts)
    requires !(p <= q) && !(q <= p) && p[0] == q[0]
    ensures |p| > 1 && |q| > 1 && !(p[1..] <= q[1..]) && !(q[1..] <= p[1..])
  {
    assert p == [p[0]] + p[1..] && q == [q[0]] + q[1..];
  }

  lemma {:induction false} GetOther(entries: Entries, p: Parts, value: Value, q: Parts)
    requires !(p <= q) && !(q <= p) && Put(entries, p, value).Some?
    ensures Get(Table(Put(entries, p, value).value, false), q) == Get(Table(entries, false), q)
    decreases |p|
  {
    var put := Put(entries, p, value).value;
    if p[0] == q[0] {
      TailsUnrelated(p, q);
      GetOther(SubTable(entries, p[0]), p[1..], value, q[1..]);
      GetBelow(entries, q);
      GetBelow(put, q);
    }
  }

  lemma {:induction false} GetDropped(entries: Entries, parts: Parts)
    ensures Get(Table(Drop(entries, parts), false), parts) == None
    ensures Get(Table(entries, false), parts) == None ==> Drop(entries, parts) == entries
    decreases |parts|
  {
    if |parts| == 1 {
      assert parts[0] !in entries ==> entries - {parts[0]} == entries;
      assert parts[0] in entries ==> Get(entries[parts[0]], parts[1..]).Some?;
    } else if parts[0] in entries && entries[parts[0]].Table? {
      var item := entries[parts[0]];
      GetDropped(item.entries, parts[1..]);
      InlineIgnored(item.entries, parts[1..], item.inline);
      InlineIgnored(Drop(item.entries, parts[1..]), parts[1..], item.inline);
      assert entries[parts[0] := Table(entries[parts[0]].entries, entries[parts[0]].inline)] == entries;
    }
  }

  lemma {:induction false} GetOtherDropped(entries: Entries, p: Parts, q: Parts)
    requires !(p <= q) && !(q <= p)
    ensures Get(Table(Drop(entries, p), false), q) == Get(Table(entries, false), q)
    decreases |p|
  {
    if p[0] == q[0] {
      TailsUnrelated(p, q);
      if p[0] in entries && entries[p[0]].Table? {
        GetOtherDropped(entries[p[0]].entries, p[1..], q[1..]);
        GetBelow(entries, q);
        GetBelow(Drop(entries, p), q);
      }
    }
  }

  /** Setting a key and removing it leaves every unrelated key alone and the key unset. */
  lemma SetThenRemoved(entries: Entries, key: string, value: Value, other: string)
    requires Unrelated(key, other) && Put(entries, KeyParts(key), value).Some?
    ensures var after := Table(Drop(Put(entries, KeyParts(key), value).value, KeyParts(key)), false);
            && Get(after, KeyParts(key)) == None
            && Get(after, KeyParts(other)) == Get(Table(entries, false), KeyParts(other))
  {
    var put := Put(entries, KeyParts(key), value).value;
    GetDropped(put, KeyParts(key));
    GetOtherDropped(put, KeyParts(key), KeyParts(other));
    GetOther(entries, KeyParts(key), value, KeyParts(other));
  }

  /** Setting twice is setting the second. */
  lemma {:induction false} LastSetWins(entries: Entries, parts: Parts, first: Value, second: Value)
    requires Put(entries, parts, first).Some?
    ensures Put(Put(entries, parts, first).value, parts, second) == Put(entries, parts, second)
    decreases |parts|
  {
    var name := parts[0];
    var once := Put(entries, parts, first).value;
    if |parts| == 1 {
      assert once[name := Leaf(second)] == entries[name := Leaf(second)];
    } else {
      var sub := SubTable(entries, name);
      LastSetWins(sub, parts[1..], first, second);
      assert SubTable(once, name) == Put(sub, parts[1..], first).value && !Inline(once, name);
      var twice := Put(sub, parts[1..], second);
      if twice.Some? {
        assert once[name := Table(twice.value, false)] == entries[name := Table(twice.value, false)];
      }
    }
  }
}
