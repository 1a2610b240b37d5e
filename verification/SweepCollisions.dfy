/**
 Panes whose identities hash to one slot share a pool of image ids: that there are such panes, and
 what a sweep for one of them does to the other.
 */
module SweepCollisions {

  import opened Octets
  import opened Sequences
  import opened ImageSweep
  import opened SweepRuns
  import ImageId

  /** What a sweep deletes: a page goes if and only if its delete arrives and its pane's pool is the
      pool of a pane the sweep holds for dead, and so did not see listed. */
  lemma ClearSparesIff(s: State, id: SweepId, lost: set<Image>, bases: Bases, image: Image)
    requires Truthful(s, bases) && Enabled(s, Clear(id, lost)) && image in s.images
    ensures image !in Apply(s, Clear(id, lost), bases).images <==>
            image !in lost &&
            exists p :: p in s.sweeps[id].dead && p !in s.sweeps[id].live && bases(p) == bases(image.pane)
  {
    var sweep := s.sweeps[id];
    assert SweepTrue(sweep, bases);
    if bases(image.pane) in sweep.dead.Values {
      var p :| p in sweep.dead && sweep.dead[p] == bases(image.pane);
    }
    forall p | p in sweep.dead ensures bases(p) in sweep.dead.Values {
      assert sweep.dead[p] in sweep.dead.Values;
    }
  }

  /** The pools the panes of one server get. */
  ghost predicate PoolsOf(server: seq<byte>, names: Pane -> seq<byte>, bases: Bases) {
    server != [] && forall p :: bases(p) == ImageId.BaseFor(server, names(p), [])
  }

  /** Deleting the ids of one pane's pool touches another pane's page exactly if their identities hash
      to one slot. */
  lemma PoolsOfServer(server: seq<byte>, names: Pane -> seq<byte>, bases: Bases, p: Pane, q: Pane)
    requires PoolsOf(server, names, bases)
    ensures (exists id :: id in ImageId.OwnedIds(bases(p)) && id in ImageId.OwnedIds(bases(q))) <==> bases(p) == bases(q)
    ensures bases(p) == bases(q) <==> ImageId.Slot(server, names(p), []) == ImageId.Slot(server, names(q), [])
  {
    ImageId.PoolsSharedIff(server, names(p), [], server, names(q), []);
  }

  function Range(n: nat): (r: set<nat>)
    ensures |r| == n && forall i :: i in r <==> 0 <= i < n
  {
    if n == 0 then {} else Range(n - 1) + {n - 1}
  }

  function Elements(values: seq<nat>): set<nat> {
    set v | v in values
  }

  /** Values that are all different make as many. */
  lemma {:induction false} DistinctValues(values: seq<nat>)
    requires forall i, j :: 0 <= i < j < |values| ==> values[i] != values[j]
    ensures |Elements(values)| == |values|
  {
    if values == [] {
      assert Elements(values) == {};
    } else {
      var n := |values| - 1;
      DistinctValues(values[..n]);
      assert Elements(values) == Elements(values[..n]) + {values[n]};
      assert values[n] !in values[..n];
    }
  }

  /** More values than there are holes to put them in. */
  lemma Pigeonhole(values: seq<nat>, holes: nat)
    requires |values| > holes && forall i :: 0 <= i < |values| ==> values[i] < holes
    ensures exists i, j :: 0 <= i < j < |values| && values[i] == values[j]
  {
    SubsetSize(Elements(values), Range(holes));
    if forall i, j :: 0 <= i < j < |values| ==> values[i] != values[j] {
      DistinctValues(values);
    }
  }

  /** On every server, whatever its panes are called, two of the first so many share a pool. */
  lemma SomePanesShareAPool(server: seq<byte>, names: Pane -> seq<byte>, bases: Bases)
    requires PoolsOf(server, names, bases)
    ensures exists p, q :: 0 <= p < q <= ImageId.SLOTS && bases(p) == bases(q)
  {
    hide ImageId.Slot;
    var slots: seq<nat> := seq(ImageId.SLOTS + 1, p requires 0 <= p => ImageId.Slot(server, names(p), []));
    Pigeonhole(slots, ImageId.SLOTS);
    var p, q :| 0 <= p < q < |slots| && slots[p] == slots[q];
    assert bases(p) == bases(q);
  }

  /** A page that a listed pane's frontend is drawing on record is deleted by a sweep: every guard held
      so far and holds for the deletion, and the sweep saw the pane listed. */
  ghost predicate BlanksLivePage(s: State, id: SweepId, p: Pane, bases: Bases) {
    && Reached(s, bases) && Enabled(s, Clear(id, {})) && Guard(s, Clear(id, {}))
    && p in s.panes && p in s.sweeps[id].live && DrawsOnRecord(s, p) && Image(p, true) in s.images
    && Image(p, true) !in Apply(s, Clear(id, {}), bases).images
  }

  /** Two panes at work: both recorded, both drawn. */
  function TwoDrawn(p: Pane, q: Pane, bases: Bases): State {
    State(map[p := 7, q := 8], map[7 := Front(p, Drawing(true)), 8 := Front(q, Drawing(true))],
          map[p := Entry(bases(p), 7), q := Entry(bases(q), 8)], {Image(p, true), Image(q, true)}, map[])
  }

  lemma ReachedTwoDrawn(p: Pane, q: Pane, bases: Bases)
    requires p != q
    ensures Reached(TwoDrawn(p, q, bases), bases)
  {
    hide Reached;
    ReachedDrawn(p, bases);
    var s := Drawn(p, bases);
    ReachedNext(s, Open(q, 8), bases);
    var s1 := Apply(s, Open(q, 8), bases);
    ReachedNext(s1, Record(8, Written), bases);
    var s2 := Apply(s1, Record(8, Written), bases);
    ReachedNext(s2, Draw(8), bases);
    assert Apply(s2, Draw(8), bases) == TwoDrawn(p, q, bases);
  }

  /** If two panes share a pool, killing one of them blanks the other. */
  lemma SharedPoolBlanks(p: Pane, q: Pane, bases: Bases)
    requires p != q && bases(p) == bases(q)
    ensures exists s, id :: BlanksLivePage(s, id, p, bases)
  {
    hide Reached;
    ReachedTwoDrawn(p, q, bases);
    var s := TwoDrawn(p, q, bases);
    ReachedNext(s, Kill(8), bases);
    var killed := Apply(s, Kill(8), bases);
    ReachedNext(killed, Close(q), bases);
    var closed := Apply(killed, Close(q), bases);
    ReachedNext(closed, List(0), bases);
    var listed := Apply(closed, List(0), bases);
    ReachedNext(listed, Scan(0, q), bases);
    var scanned := Apply(listed, Scan(0, q), bases);
    assert scanned.sweeps[0].dead[q] == bases(q) && bases(p) in scanned.sweeps[0].dead.Values;
    assert BlanksLivePage(scanned, 0, p, bases);
  }

  /** So on every server there is a pane whose live page some sweep deletes. */
  lemma SweepsBlankLivePages(server: seq<byte>, names: Pane -> seq<byte>, bases: Bases)
    requires PoolsOf(server, names, bases)
    ensures exists s, id, p :: BlanksLivePage(s, id, p, bases)
  {
    hide PoolsOf, BlanksLivePage;
    SomePanesShareAPool(server, names, bases);
    var p, q :| 0 <= p < q <= ImageId.SLOTS && bases(p) == bases(q);
    SharedPoolBlanks(p, q, bases);
    var s, id :| BlanksLivePage(s, id, p, bases);
  }
}
