/**
 The writer of one pane's tty and the registry of writers, as one thread uses them.
 */
module PaneWriter {

  import opened Octets
  import opened Wrappers
  import opened Sequences
  import opened TornScan

  /** An open tty: the bytes it has taken. Unless it is sound, a write can fail after any number. */
  class Tty {
    const sound: bool
    var written: seq<byte>

    constructor (sound: bool)
      ensures written == [] && this.sound == sound
    {
      this.sound := sound;
      written := [];
    }

    method WriteAll(bytes: seq<byte>) returns (ok: bool)
      modifies this
      ensures exists n :: 0 <= n <= |bytes| && (ok <==> n == |bytes|) && written == old(written) + bytes[..n]
      ensures sound ==> ok
    {
      var n :| 0 <= n <= |bytes| && (sound ==> n == |bytes|);
      written := written + bytes[..n];
      ok := n == |bytes|;
    }
  }

  lemma NothingFlat(sequences: seq<seq<byte>>)
    ensures Flatten(sequences[..0]) == []
  {}

  lemma WellFormedJoin(a: seq<byte>, b: seq<byte>)
    requires WellFormed(a) && WellFormed(b)
    ensures WellFormed(a + b)
  {
    ClosedAdds(a, b);
  }

  class Writer {
    const sink: Tty

    constructor (sink: Tty)
      ensures this.sink == sink
    {
      this.sink := sink;
    }

    /** Writes several sequences one after the other, stopping at the first that fails. What reaches
        the tty is always a prefix of the whole batch, and all of it when the write succeeds; a
        flush can still fail then. */
    method WriteBatch(sequences: seq<seq<byte>>) returns (ok: bool)
      modifies sink
      ensures old(sink.written) <= sink.written
      ensures sink.written[|old(sink.written)|..] <= Flatten(sequences)
      ensures ok || sink.sound ==> sink.written == old(sink.written) + Flatten(sequences)
      ensures sink.sound ==> ok
      ensures ok && WellFormed(old(sink.written)) && (forall i :: 0 <= i < |sequences| ==> WellFormed(sequences[i]))
              ==> WellFormed(sink.written)
    {
      hide WellFormed, Flatten;
      ghost var before := sink.written;
      assert Flatten(sequences[..0]) == [] by { NothingFlat(sequences); }
      for k := 0 to |sequences|
        invariant sink.written == before + Flatten(sequences[..k])
      {
        FlattenTake(sequences, k);
        FlattenPrefix(sequences, k + 1);
        var whole := sink.WriteAll(sequences[k]);
        if !whole {
          ghost var sent := sink.written[|before|..];
          assert sent <= Flatten(sequences[..k + 1]);
          return false;
        }
      }
      assert sequences[..|sequences|] == sequences;
      if forall i :: 0 <= i < |sequences| ==> WellFormed(sequences[i]) {
        UnitsWellFormed(sequences);
        if WellFormed(before) {
          WellFormedJoin(before, Flatten(sequences));
        }
      }
      var flushed :| sink.sound ==> flushed;
      ok := flushed;
    }

    method WriteSequence(sequence: seq<byte>) returns (ok: bool)
      modifies sink
      ensures old(sink.written) <= sink.written
      ensures sink.written[|old(sink.written)|..] <= sequence
      ensures ok || sink.sound ==> sink.written == old(sink.written) + sequence
      ensures sink.sound ==> ok
    {
      FlattenOne(sequence);
      ok := WriteBatch([sequence]);
    }
  }

  // What can reach a device through its writers.

  /** The streams of several writers, reaching one device with no lock between them: each in its own
      order. */
  ghost predicate Merged(streams: seq<seq<byte>>, s: seq<byte>)
    decreases |s|
  {
    if s == [] then forall w :: 0 <= w < |streams| ==> streams[w] == []
    else exists w :: 0 <= w < |streams| && Next(streams, w, s[0]) && Merged(Taken(streams, w), s[1..])
  }

  ghost predicate Next(streams: seq<seq<byte>>, w: nat, b: byte)
    requires w < |streams|
  {
    streams[w] != [] && streams[w][0] == b
  }

  function Taken(streams: seq<seq<byte>>, w: nat): seq<seq<byte>>
    requires w < |streams| && streams[w] != []
  {
    streams[w := streams[w][1..]]
  }

  /** What a device with so many writers can come to hold while each of them writes whole batches only. */
  ghost predicate CanHold(writers: nat, s: seq<byte>) {
    exists streams: seq<seq<byte>> ::
      |streams| == writers && (forall w :: 0 <= w < writers ==> WellFormed(streams[w])) && Merged(streams, s)
  }

  /** None of that is torn. */
  ghost predicate NeverTorn(writers: nat) {
    forall s :: CanHold(writers, s) ==> Torn(s) == 0
  }

  lemma {:induction false} MergedOfOne(stream: seq<byte>, s: seq<byte>)
    requires Merged([stream], s)
    ensures s == stream
    decreases |s|
  {
    if s == [] {
      assert [stream][0] == [];
    } else {
      var w :| 0 <= w < 1 && Next([stream], w, s[0]) && Merged(Taken([stream], w), s[1..]);
      assert Taken([stream], 0) == [stream[1..]];
      MergedOfOne(stream[1..], s[1..]);
    }
  }

  /** One stream whole, with nothing left of the others. */
  lemma {:induction false} MergedAlone(streams: seq<seq<byte>>, w: nat)
    requires w < |streams| && forall v :: 0 <= v < |streams| && v != w ==> streams[v] == []
    ensures Merged(streams, streams[w])
    decreases |streams[w]|
  {
    if streams[w] != [] {
      MergedAlone(Taken(streams, w), w);
      assert Next(streams, w, streams[w][0]);
    }
  }

  /** One writer's stream falls whole into another's. */
  lemma {:induction false} MergedInto(streams: seq<seq<byte>>, a: nat, b: nat, p: nat)
    requires a < |streams| && b < |streams| && a != b && p <= |streams[a]|
    requires forall v :: 0 <= v < |streams| && v != a && v != b ==> streams[v] == []
    ensures Merged(streams, streams[a][..p] + streams[b] + streams[a][p..])
    decreases p, |streams[b]|
  {
    var x, y := streams[a], streams[b];
    var s := x[..p] + y + x[p..];
    if p > 0 {
      MergedInto(Taken(streams, a), a, b, p - 1);
      assert x[1..][..p - 1] == x[1..p] && x[1..][p - 1..] == x[p..];
      assert s[1..] == x[1..p] + y + x[p..] && Next(streams, a, s[0]);
    } else if y != [] {
      MergedInto(Taken(streams, b), a, b, 0);
      assert s[1..] == x[..0] + y[1..] + x[0..] && Next(streams, b, s[0]);
    } else {
      assert s == x;
      MergedAlone(streams, a);
    }
  }

  /** A command with a foreign sequence written through another writer falling into it. */
  function TornBy(body: seq<byte>, foreign: seq<byte>, p: nat): seq<byte>
    requires p <= |START| + |body| + |END|
  {
    var command := START + body + END;
    command[..p] + foreign + command[p..]
  }

  /** Mutexes of different writers do not protect their device from each other: any command written
      through one and any foreign sequence through another can reach it so that the command is torn,
      wherever the second write falls between the first one's opening and terminator. */
  lemma TwoWritersTear(writers: nat, body: seq<byte>, foreign: seq<byte>, p: nat)
    requires writers >= 2
    requires ESC !in body
    requires |foreign| >= 2 && foreign[..2] == FOREIGN && ESC !in foreign[2..]
    requires |START| <= p <= |START| + |body|
    ensures CanHold(writers, TornBy(body, foreign, p)) && Torn(TornBy(body, foreign, p)) == 1
  {
    hide Torn, WellFormed, Merged;
    NothingWellFormed();
    CommandWellFormed(body);
    ForeignWellFormed(foreign);
    var command := START + body + END;
    var streams := seq(writers, w => if w == 0 then command else if w == 1 then foreign else []);
    MergedInto(streams, 0, 1, p);
    DetectorExact(body, foreign, p);
    assert Merged(streams, TornBy(body, foreign, p));
  }

  lemma NothingWellFormed()
    ensures WellFormed([])
  {
    UnitsWellFormed([]);
  }

  /** While all that is written is whole, a device is never torn if and only if it has at most one
      writer. */
  lemma NeverTornIffOneWriter(writers: nat)
    ensures NeverTorn(writers) <==> writers <= 1
  {
    hide Torn, CanHold;
    if writers <= 1 {
      forall s | CanHold(writers, s) ensures Torn(s) == 0 {
        HeldByOne(writers, s);
      }
    } else {
      TwoWritersTear(writers, [], FOREIGN, |START|);
    }
  }

  lemma HeldByOne(writers: nat, s: seq<byte>)
    requires writers <= 1 && CanHold(writers, s)
    ensures Torn(s) == 0
  {
    hide Torn;
    var streams: seq<seq<byte>> :|
      |streams| == writers && (forall w :: 0 <= w < writers ==> WellFormed(streams[w])) && Merged(streams, s);
    if writers == 1 {
      assert streams == [streams[0]];
      MergedOfOne(streams[0], s);
    } else {
      assert s == [];
      NothingWellFormed();
    }
  }

  // The registry.

  type Recorded = map<string, (string, Writer)>

  /** Every writer there ever was is on the device of the path it was opened on, different paths name
      different devices, and no two panes are recorded with one writer. */
  ghost predicate Consistent(writers: Recorded, devices: map<string, Tty>, origins: map<Writer, string>, held: set<Writer>) {
    && (forall w :: w in origins ==> origins[w] in devices && w.sink == devices[origins[w]])
    && (forall a, b :: a in devices && b in devices && a != b ==> devices[a] != devices[b])
    && (forall p :: p in writers ==> writers[p].1 in origins && origins[writers[p].1] == writers[p].0)
    && (forall p, q :: p in writers && q in writers && p != q ==> writers[p].1 != writers[q].1)
    && held <= origins.Keys
  }

  lemma NewWriterConsistent(writers: Recorded, devices: map<string, Tty>, origins: map<Writer, string>, held: set<Writer>,
                            pane: string, ttyPath: string, w: Writer)
    requires Consistent(writers, devices, origins, held)
    requires w !in origins && ttyPath in devices && w.sink == devices[ttyPath]
    ensures Consistent(writers[pane := (ttyPath, w)], devices, origins[w := ttyPath], held + {w})
  {}

  lemma RecordedOrigins(writers: Recorded, devices: map<string, Tty>, origins: map<Writer, string>, held: set<Writer>)
    requires Consistent(writers, devices, origins, held)
    ensures forall p :: p in writers ==> writers[p].1 in origins && origins[writers[p].1] == writers[p].0
  {}

  lemma NewDeviceConsistent(writers: Recorded, devices: map<string, Tty>, origins: map<Writer, string>, held: set<Writer>,
                            ttyPath: string, tty: Tty)
    requires Consistent(writers, devices, origins, held)
    requires ttyPath !in devices && tty !in devices.Values
    ensures Consistent(writers, devices[ttyPath := tty], origins, held)
  {}

  lemma HeldConsistent(writers: Recorded, devices: map<string, Tty>, origins: map<Writer, string>, held: set<Writer>, pane: string)
    requires Consistent(writers, devices, origins, held) && pane in writers
    ensures Consistent(writers, devices, origins, held + {writers[pane].1})
  {}

  lemma NothingLiving(writers: Recorded, origins: map<Writer, string>, held: set<Writer>)
    requires origins == map[]
    ensures OneEach(writers, origins, held)
  {
    forall q ensures Living(writers, origins, held, q) == {} {}
  }

  /** The writers opened on a path that something can still be written through: recorded for a pane, or
      held by a thread. */
  ghost function Living(writers: Recorded, origins: map<Writer, string>, held: set<Writer>, ttyPath: string): set<Writer> {
    set w | w in origins && origins[w] == ttyPath && (w in held || exists p :: p in writers && writers[p].1 == w)
  }

  ghost predicate OneEach(writers: Recorded, origins: map<Writer, string>, held: set<Writer>) {
    forall ttyPath :: |Living(writers, origins, held, ttyPath)| <= 1
  }

  /** Holding a recorded writer makes nothing alive. */
  lemma HoldingRecorded(writers: Recorded, origins: map<Writer, string>, held: set<Writer>, pane: string)
    requires pane in writers
    ensures OneEach(writers, origins, held + {writers[pane].1}) == OneEach(writers, origins, held)
  {
    forall q ensures Living(writers, origins, held + {writers[pane].1}, q) == Living(writers, origins, held, q) {}
  }

  /** Where writers go away, none comes. */
  lemma FewerLiving(writers: Recorded, origins: map<Writer, string>, held: set<Writer>, writers': Recorded, held': set<Writer>)
    requires OneEach(writers, origins, held)
    requires held' <= held && forall p :: p in writers' ==> p in writers && writers'[p] == writers[p]
    ensures OneEach(writers', origins, held')
  {
    forall q ensures |Living(writers', origins, held', q)| <= 1 {
      SubsetSize(Living(writers', origins, held', q), Living(writers, origins, held, q));
    }
  }

  /** A new writer for a pane that was not recorded on its path. */
  lemma NewLivingIff(writers: Recorded, origins: map<Writer, string>, held: set<Writer>, pane: string, ttyPath: string,
                     w: Writer)
    requires OneEach(writers, origins, held) && w !in origins
    requires forall p :: p in writers ==> writers[p].1 in origins && origins[writers[p].1] == writers[p].0
    requires pane in writers ==> writers[pane].0 != ttyPath
    ensures OneEach(writers[pane := (ttyPath, w)], origins[w := ttyPath], held + {w}) <==>
            Living(writers, origins, held, ttyPath) == {}
  {
    var writers', origins', held' := writers[pane := (ttyPath, w)], origins[w := ttyPath], held + {w};
    forall q | q != ttyPath ensures |Living(writers', origins', held', q)| <= 1 {
      SubsetSize(Living(writers', origins', held', q), Living(writers, origins, held, q));
    }
    NewLiving(writers, origins, held, pane, ttyPath, w);
  }

  lemma NewLiving(writers: Recorded, origins: map<Writer, string>, held: set<Writer>, pane: string, ttyPath: string, w: Writer)
    requires w !in origins
    requires forall p :: p in writers ==> writers[p].1 in origins && origins[writers[p].1] == writers[p].0
    requires pane in writers ==> writers[pane].0 != ttyPath
    ensures Living(writers[pane := (ttyPath, w)], origins[w := ttyPath], held + {w}, ttyPath)
         == Living(writers, origins, held, ttyPath) + {w}
  {
    var writers' := writers[pane := (ttyPath, w)];
    forall v | v in Living(writers, origins, held, ttyPath) && v !in held
      ensures exists p :: p in writers' && writers'[p].1 == v
    {
      var p :| p in writers && writers[p].1 == v;
      assert p != pane && writers'[p].1 == v;
    }
    assert writers'[pane].1 == w;
  }

  /** The writers currently open, one per pane, and the devices the tty paths name. A writer that was
      replaced or released lives on while a thread holds it. */
  class Writers {
    var writers: Recorded
    var devices: map<string, Tty>
    ghost var origins: map<Writer, string>  // every writer there ever was, and the path it was opened on
    ghost var held: set<Writer>             // those a thread holds

    ghost predicate Valid()
      reads this
    {
      Consistent(writers, devices, origins, held)
    }

    ghost function AliveOn(ttyPath: string): set<Writer>
      reads this
    {
      Living(writers, origins, held, ttyPath)
    }

    ghost predicate OneWriterEach()
      reads this
    {
      OneEach(writers, origins, held)
    }

    constructor ()
      ensures Valid() && OneWriterEach() && writers == map[] && devices == map[] && origins == map[] && held == {}
    {
      writers, devices, origins, held := map[], map[], map[], {};
      new;
      NothingLiving(writers, origins, held);
    }

    /** Of all the writers there ever were, two reach one device if and only if they were opened on one
        path. */
    lemma OneDeviceIff(a: Writer, b: Writer)
      requires Valid() && a in origins && b in origins
      ensures a.sink == b.sink <==> origins[a] == origins[b]
    {
      assert a.sink == devices[origins[a]] && b.sink == devices[origins[b]];
    }

    /** No device is ever torn by whole batches if and only if each has at most one living writer. */
    lemma NeverTornIff()
      requires Valid()
      ensures OneWriterEach() <==> forall ttyPath :: NeverTorn(|AliveOn(ttyPath)|)
    {
      hide NeverTorn;
      forall ttyPath
        ensures |Living(writers, origins, held, ttyPath)| <= 1 <==> NeverTorn(|AliveOn(ttyPath)|)
      {
        NeverTornIffOneWriter(|AliveOn(ttyPath)|);
      }
    }

    /** The device a path names; `sound` is whether writes to one not seen before will succeed. */
    method Open(ttyPath: string, sound: bool) returns (tty: Tty)
      requires Valid()
      modifies this`devices
      ensures Valid()
      ensures ttyPath in old(devices) ==> tty == old(devices)[ttyPath] && devices == old(devices)
      ensures ttyPath !in old(devices) ==>
                fresh(tty) && tty.written == [] && tty.sound == sound && devices == old(devices)[ttyPath := tty]
    {
      if ttyPath in devices {
        return devices[ttyPath];
      }
      tty := new Tty(sound);
      NewDeviceConsistent(writers, devices, origins, held, ttyPath, tty);
      devices := devices[ttyPath := tty];
    }

    /** The pane is recorded with this path. */
    ghost predicate Known(pane: string, ttyPath: string)
      reads this
    {
      pane in writers && writers[pane].0 == ttyPath
    }

    /** The pane's writer if it is known on this tty path, otherwise a new one on the opened tty, which
        replaces the pane's old writer. `opens` is whether the tty can be opened; it is not opened when
        the writer is known. The caller then holds the writer.

        A new writer is the only one of its device if and only if no other was alive on its path. */
    method WriterFor(pane: string, ttyPath: string, opens: bool, sound: bool) returns (r: Option<Writer>)
      requires Valid()
      modifies this
      ensures Valid()
      ensures old(Known(pane, ttyPath)) ==>
                r == Some(old(writers)[pane].1) && writers == old(writers) && devices == old(devices) && origins == old(origins)
      ensures !old(Known(pane, ttyPath)) && opens ==>
                r.Some? && fresh(r.value) && writers == old(writers)[pane := (ttyPath, r.value)] &&
                origins == old(origins)[r.value := ttyPath] &&
                (if ttyPath in old(devices) then r.value.sink == old(devices)[ttyPath] && devices == old(devices)
                 else fresh(r.value.sink) && r.value.sink.written == [] && devices == old(devices)[ttyPath := r.value.sink])
      ensures !old(Known(pane, ttyPath)) && !opens ==>
                r == None && writers == old(writers) && devices == old(devices) && origins == old(origins)
      ensures held == if r.Some? then old(held) + {r.value} else old(held)
      ensures old(OneWriterEach()) ==>
                (OneWriterEach() <==> old(Known(pane, ttyPath)) || !opens || old(AliveOn(ttyPath)) == {})
    {
      hide OneEach, Living, Consistent;
      if pane in writers && writers[pane].0 == ttyPath {
        HeldConsistent(writers, devices, origins, held, pane);
        HoldingRecorded(writers, origins, held, pane);
        held := held + {writers[pane].1};
        return Some(writers[pane].1);
      }
      if !opens {
        return None;
      }
      var tty := Open(ttyPath, sound);
      var writer := new Writer(tty);
      NewWriterConsistent(writers, devices, origins, held, pane, ttyPath, writer);
      writers := writers[pane := (ttyPath, writer)];
      origins := origins[writer := ttyPath];
      held := held + {writer};
      r := Some(writer);
      if old(OneWriterEach()) {
        RecordedOrigins(old(writers), old(devices), old(origins), old(held));
        NewLivingIff(old(writers), old(origins), old(held), pane, ttyPath, writer);
      }
    }

    /** The pane's entry goes; its writer lives on while a thread holds it. */
    method Release(pane: string)
      requires Valid()
      modifies this`writers
      ensures Valid()
      ensures writers == old(writers) - {pane}
      ensures old(OneWriterEach()) ==> OneWriterEach()
    {
      writers := writers - {pane};
      if old(OneWriterEach()) {
        FewerLiving(old(writers), origins, old(held), writers, held);
      }
    }

    /** The last thread that holds a writer is done with it. */
    ghost method LetGo(w: Writer)
      requires Valid()
      modifies this`held
      ensures Valid() && held == old(held) - {w}
      ensures old(OneWriterEach()) ==> OneWriterEach()
    {
      held := held - {w};
      if old(OneWriterEach()) {
        FewerLiving(old(writers), origins, old(held), writers, held);
      }
    }
  }

  /** One pane is enough: released and asked for again while a thread still holds its first writer, it
      has two on one device. */
  method ReleasedTooSoon(pane: string, ttyPath: string) returns (registry: Writers, a: Writer, b: Writer)
    ensures registry.Valid() && registry.writers.Keys == {pane}
    ensures a != b && a.sink == b.sink && registry.AliveOn(ttyPath) == {a, b}
    ensures exists s :: CanHold(|registry.AliveOn(ttyPath)|, s) && Torn(s) == 1
  {
    hide CanHold, Torn, OneEach, Consistent;
    registry := new Writers();
    var first := registry.WriterFor(pane, ttyPath, true, true);
    registry.Release(pane);
    var second := registry.WriterFor(pane, ttyPath, true, true);
    a, b := first.value, second.value;
    TwoWritersTear(2, [], FOREIGN, |START|);
  }
}
