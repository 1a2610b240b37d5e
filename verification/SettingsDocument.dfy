/**
 The settings document as the program holds it: tables that are changed in place, walked from the
 root along the parts of a key.
 */
module SettingsDocument {

  import opened Wrappers
  import opened SettingsFile

  /** What a table has under a name: a value, a table of its own, inline or not, or an array of tables. */
  datatype Node = ValueNode(value: Value) | TableNode(table: TableObject, inline: bool) | TablesNode

  class TableObject {
    var entries: map<string, Node>
    ghost var repr: set<TableObject>

    /** The tables below form a tree: nothing is shared. */
    ghost predicate Valid()
      reads this, repr
      decreases repr
      ensures Valid() ==> this in repr
    {
      && this in repr
      && (forall k :: k in entries && entries[k].TableNode? ==>
            && entries[k].table in repr && entries[k].table.repr <= repr && this !in entries[k].table.repr
            && entries[k].table.Valid())
      && (forall j, k :: j in entries && k in entries && j != k && entries[j].TableNode? && entries[k].TableNode? ==>
            entries[j].table.repr !! entries[k].table.repr)
    }

    /** The tree this table is the root of. */
    ghost function Content(): Entries
      requires Valid()
      reads this, repr
      decreases repr
    {
      map k | k in entries :: Below(k)
    }

    ghost function Below(k: string): Item
      requires Valid() && k in entries
      reads this, repr
      decreases repr, 0
    {
      match entries[k]
      case ValueNode(value) => Leaf(value)
      case TableNode(table, inline) => Table(table.Content(), inline)
      case TablesNode => Tables
    }

    lemma ContentIs()
      requires Valid()
      ensures Content().Keys == entries.Keys && forall k :: k in entries ==> Content()[k] == Below(k)
    {}

    /** The content again, when it is known name by name. */
    lemma Reassembled(before: Entries, name: string, item: Item)
      requires Valid() && name in entries && Below(name) == item
      requires entries.Keys == before.Keys + {name} && forall k :: k in entries && k != name ==> Below(k) == before[k]
      ensures Content() == before[name := item]
    {
      ContentIs();
    }

    constructor ()
      ensures Valid() && Content() == map[] && fresh(repr)
    {
      entries := map[];
      repr := {this};
    }

    /** Everything of the other names stands apart from the table under one name. */
    ghost predicate Apart(name: string, table: TableObject)
      requires Valid()
      reads this, repr
    {
      && table in repr && table.repr <= repr && this !in table.repr && table.Valid()
      && forall k :: k in entries && k != name && entries[k].TableNode? ==> entries[k].table.repr !! table.repr
    }

    /** Puts something other than a table under a name. */
    method PutLeaf(name: string, value: Value)
      requires Valid()
      modifies this
      ensures Valid() && repr == old(repr)
      ensures Content() == old(Content())[name := Leaf(value)]
    {
      ghost var before := Content();
      entries := entries[name := ValueNode(value)];
      forall k | k in entries && k != name ensures Below(k) == before[k] {
        assert entries[k] == old(entries[k]);
        assert before[k] == old(Below(k));
      }
      assert Content() == before[name := Leaf(value)];
    }

    /** The table under a name, made where there is none. */
    method Enter(name: string) returns (next: TableObject)
      requires Valid() && !Inline(Content(), name)
      modifies this
      ensures Valid() && fresh(repr - old(repr))
      ensures name in entries && entries[name] == TableNode(next, false) && Apart(name, next)
      ensures next.Content() == SubTable(old(Content()), name)
      ensures Content() == old(Content())[name := Table(next.Content(), false)]
    {
      ghost var before := Content();
      if name in entries && entries[name].TableNode? {
        next := entries[name].table;
        assert before[name] == Below(name);
        assert Content() == before[name := Table(next.Content(), false)];
      } else {
        assert name in before ==> before[name] == Below(name);
        next := Make(name);
      }
    }

    /** A new table under a name that has none. */
    method Make(name: string) returns (next: TableObject)
      requires Valid() && !(name in entries && entries[name].TableNode?)
      modifies this
      ensures Valid() && fresh(repr - old(repr))
      ensures name in entries && entries[name] == TableNode(next, false) && Apart(name, next)
      ensures next.Content() == map[]
      ensures Content() == old(Content())[name := Table(map[], false)]
    {
      ghost var before := Content();
      next := new TableObject();
      entries := entries[name := TableNode(next, false)];
      repr := repr + next.repr;
      forall k | k in entries && k != name && entries[k].TableNode? ensures entries[k].table.Valid() {
        assert entries[k] == old(entries[k]);
      }
      assert Valid();
      forall k | k in entries && k != name ensures Below(k) == before[k] {
        assert entries[k] == old(entries[k]);
        assert before[k] == old(Below(k));
      }
      assert Content() == before[name := Table(next.Content(), false)];
    }

    /** Walks down the parts of a key, making tables where there are none, and puts the value there.
        Before an inline table the program stops. */
    method Set(parts: Parts, value: Value) returns (done: bool)
      requires Valid()
      modifies repr
      ensures Valid() && fresh(repr - old(repr))
      ensures done == Put(old(Content()), parts, value).Some?
      ensures Content() == if done then Put(old(Content()), parts, value).value else old(Content())
      decreases |parts|, 0
    {
      hide Valid, Content, Below, Apart;
      ghost var before := Content();
      var name := parts[0];
      if |parts| == 1 {
        PutLeaf(name, value);
        return true;
      }
      ContentIs();
      assert name in entries ==> before[name] == Below(name);
      if name in entries && entries[name].TableNode? && entries[name].inline {
        InlineNode(name);
        return false;
      }
      InlineNode(name);
      var next := Enter(name);
      done := SetBelow(name, next, parts[1..], value);
      if !done {
        PutIntoNothing(parts[1..], value);
        assert before[name := Table(SubTable(before, name), false)] == before;
      }
    }

    lemma InlineNode(name: string)
      requires Valid()
      ensures Inline(Content(), name) <==> name in entries && entries[name].TableNode? && entries[name].inline
    {
      ContentIs();
    }

    /** Goes on in the table under a name. */
    method SetBelow(name: string, next: TableObject, rest: Parts, value: Value) returns (done: bool)
      requires Valid() && name in entries && entries[name] == TableNode(next, false) && Apart(name, next)
      modifies repr
      ensures Valid() && fresh(repr - old(repr))
      ensures done == Put(old(next.Content()), rest, value).Some?
      ensures Content() == if done then old(Content())[name := Table(Put(old(next.Content()), rest, value).value, false)]
                           else old(Content())
      decreases |rest|, 1
    {
      hide Put, SubTable, Content;
      ContentIs();
      ghost var before := Content();
      assert before[name] == Table(next.Content(), false);
      done := next.Set(rest, value);
      repr := repr + next.repr;
      forall k | k in entries && k != name && entries[k].TableNode?
        ensures entries[k].table.repr == old(entries[k].table.repr) && entries[k].table.Valid()
        ensures Table(entries[k].table.Content(), entries[k].inline) == before[k]
      {
        var table := entries[k].table;
        assert table in old(table.repr) && old(table.repr) !! old(next.repr);
        assert before[k] == old(Below(k));
      }
      assert Valid();
      Reassembled(before, name, Table(next.Content(), false));
      if !done {
        assert before[name := before[name]] == before;
      }
    }

    /** Takes a name out of this table. */
    method Take(name: string) returns (removed: bool)
      requires Valid()
      modifies this
      ensures Valid() && repr == old(repr)
      ensures removed <==> name in old(Content())
      ensures Content() == old(Content()) - {name}
    {
      ghost var before := Content();
      removed := name in entries;
      entries := entries - {name};
      forall k | k in entries ensures Below(k) == before[k] {
        assert entries[k] == old(entries[k]);
        assert before[k] == old(Below(k));
      }
      assert Content() == before - {name};
    }

    /** Walks down the parts of a key and removes the last, if there is a table at every step. */
    method Remove(parts: Parts) returns (removed: bool)
      requires Valid()
      modifies repr
      ensures Valid() && repr == old(repr)
      ensures Content() == Drop(old(Content()), parts)
      ensures removed <==> Get(Table(old(Content()), false), parts).Some?
      decreases |parts|, 0
    {
      var name := parts[0];
      ghost var before := Content();
      if |parts| == 1 {
        removed := Take(name);
        TakenIf(before, parts);
        return;
      }
      assert name in entries ==> before[name] == Below(name);
      if !(name in entries && entries[name].TableNode?) {
        return false;
      }
      removed := RemoveBelow(name, entries[name].table, entries[name].inline, parts[1..]);
    }

    method RemoveBelow(name: string, next: TableObject, inline: bool, rest: Parts) returns (removed: bool)
      requires Valid() && name in entries && entries[name] == TableNode(next, inline) && Apart(name, next)
      modifies repr
      ensures Valid() && repr == old(repr)
      ensures Content() == old(Content())[name := Table(Drop(old(next.Content()), rest), inline)]
      ensures removed <==> Get(Table(old(next.Content()), false), rest).Some?
      decreases |rest|, 1
    {
      hide Drop, Get, Content;
      ContentIs();
      ghost var before := Content();
      removed := next.Remove(rest);
      forall k | k in entries && k != name && entries[k].TableNode?
        ensures entries[k].table.repr == old(entries[k].table.repr) && entries[k].table.Valid()
        ensures Table(entries[k].table.Content(), entries[k].inline) == before[k]
      {
        var table := entries[k].table;
        assert table in old(table.repr) && old(table.repr) !! old(next.repr);
        assert before[k] == old(Below(k));
      }
      assert Valid();
      Reassembled(before, name, Table(next.Content(), inline));
    }
  }

  lemma TakenIf(entries: Entries, parts: Parts)
    requires |parts| == 1
    ensures parts[0] in entries <==> Get(Table(entries, false), parts).Some?
  {
    assert parts[0] in entries ==> Get(entries[parts[0]], parts[1..]).Some?;
  }

  class Document {
    const root: TableObject

    constructor ()
      ensures root.Valid() && root.Content() == map[] && fresh(root.repr)
    {
      root := new TableObject();
    }

    /** What a dotted key has in the document. */
    ghost function At(key: string): Option<Item>
      requires root.Valid()
      reads root, root.repr
    {
      Get(Table(root.Content(), false), KeyParts(key))
    }

    /** Goes down one part at a time. */
    method FileValue(key: string) returns (found: Option<Node>)
      requires root.Valid()
      ensures found.Some? && found.value.TableNode? ==> found.value.table.Valid()
      ensures At(key) == if found.None? then None else Some(ItemOf(found.value))
    {
      var parts := KeyParts(key);
      var node := TableNode(root, false);
      for i := 0 to |parts|
        invariant node.TableNode? ==> node.table.Valid()
        invariant Get(ItemOf(node), parts[i..]) == At(key)
      {
        assert parts[i..][0] == parts[i] && parts[i..][1..] == parts[i + 1..];
        if !node.TableNode? || parts[i] !in node.table.entries {
          return None;
        }
        var table := node.table;
        node := table.entries[parts[i]];
        assert ItemOf(node) == table.Below(parts[i]);
      }
      found := Some(node);
    }

    /** Afterwards the key has the value, and a key that neither leads to it nor goes on from it has
        what it had. `done` is false where the program stops, which is before an inline table. */
    method SetIn(key: string, value: Value) returns (done: bool)
      requires root.Valid()
      modifies root.repr
      ensures root.Valid() && fresh(root.repr - old(root.repr))
      ensures done <==> forall k :: 0 < k < |KeyParts(key)| ==> !InlineAfter(old(root.Content()), KeyParts(key), k)
      ensures done ==> At(key) == Some(Leaf(value))
      ensures forall other :: Unrelated(key, other) ==> At(other) == old(At(other))
      ensures done ==> Some(root.Content()) == Put(old(root.Content()), KeyParts(key), value)
      ensures !done ==> root.Content() == old(root.Content())
    {
      ghost var before := root.Content();
      done := root.Set(KeyParts(key), value);
      PutSucceedsIff(before, KeyParts(key), value);
      if done {
        GetPut(before, KeyParts(key), value);
        forall other | Unrelated(key, other) ensures At(other) == old(At(other)) {
          GetOther(before, KeyParts(key), value, KeyParts(other));
        }
      }
    }

    /** Tells whether there was anything to remove. */
    method RemoveIn(key: string) returns (removed: bool)
      requires root.Valid()
      modifies root.repr
      ensures root.Valid() && root.repr == old(root.repr)
      ensures removed <==> old(At(key)).Some?
      ensures At(key) == None
      ensures !removed ==> root.Content() == old(root.Content())
      ensures forall other :: Unrelated(key, other) ==> At(other) == old(At(other))
      ensures root.Content() == Drop(old(root.Content()), KeyParts(key))
    {
      ghost var before := root.Content();
      removed := root.Remove(KeyParts(key));
      GetDropped(before, KeyParts(key));
      forall other | Unrelated(key, other) ensures At(other) == old(At(other)) {
        GetOtherDropped(before, KeyParts(key), KeyParts(other));
      }
    }
  }

  /** What a node stands for. */
  ghost function ItemOf(node: Node): Item
    requires node.TableNode? ==> node.table.Valid()
    reads if node.TableNode? then {node.table} + node.table.repr else {}
  {
    match node
    case ValueNode(value) => Leaf(value)
    case TableNode(table, inline) => Table(table.Content(), inline)
    case TablesNode => Tables
  }
}
