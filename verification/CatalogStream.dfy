// The catalog as its stream sees it: one goroutine observes while the handler
// looks once per tick (client-windows/internal/setup).
module CatalogStream {
  import opened CatalogSpec
  import Catalog
  import Sse

  /** One look at the catalog. */
  method Look(c: Catalog.Catalog) returns (snap: Snapshot)
    requires c.Valid()
    ensures IsSnapshot(snap, Version(c.View(), c.locked, c.lockedSeen), c.observations)
  {
    hide IsSnapshot, Consistent, Catalog.ViewOf;
    snap := c.TakeSnapshot();
  }

  /** What the handler sees of a live catalog: one snapshot at the start and one
      per tick, with any readings observed in between. */
  method Watch(c: Catalog.Catalog, between: seq<seq<Obs>>) returns (snaps: seq<Snapshot>)
    requires c.Valid()
    modifies c, c.apps.Values
    ensures c.Valid() && fresh(c.apps.Values - old(c.apps.Values))
    ensures |snaps| == |between| + 1 && TakenFrom(snaps, c.run)
    ensures IsSnapshot(snaps[|between|], Version(c.View(), c.locked, c.lockedSeen), c.observations)
  {
    assert TakenFrom([], c.run);
    hide IsSnapshot, TakenFrom, Consistent, Catalog.ViewOf;
    var snap := Look(c);
    snaps := [snap];
    TakenOneMore([], snap, c.run, c.run, c.observations);
    assert [] + [snap] == [snap];
    for i := 0 to |between|
      invariant c.Valid() && fresh(c.apps.Values - old(c.apps.Values))
      invariant |snaps| == i + 1 && TakenFrom(snaps, c.run)
      invariant IsSnapshot(snaps[i], Version(c.View(), c.locked, c.lockedSeen), c.observations)
    {
      ghost var before := c.run;
      ObserveAll(c, between[i]);
      snap := Look(c);
      TakenOneMore(snaps, snap, before, c.run, c.observations);
      snaps := snaps + [snap];
    }
  }

  method ObserveOne(c: Catalog.Catalog, o: Obs)
    requires c.Valid()
    modifies c, c.apps.Values
    ensures c.Valid() && fresh(c.apps.Values - old(c.apps.Values))
    ensures old(c.run) <= c.run
  {
    hide Consistent, Catalog.ViewOf, Evicts, Touched;
    c.Observe(o.process, o.title, o.time);
  }

  method ObserveAll(c: Catalog.Catalog, readings: seq<Obs>)
    requires c.Valid()
    modifies c, c.apps.Values
    ensures c.Valid() && fresh(c.apps.Values - old(c.apps.Values))
    ensures old(c.run) <= c.run
  {
    hide Consistent, Catalog.ViewOf, Evicts, Touched;
    for i := 0 to |readings|
      invariant c.Valid() && fresh(c.apps.Values - old(c.apps.Values))
      invariant old(c.run) <= c.run
    {
      ObserveOne(c, readings[i]);
    }
  }

  /** The stream of a live catalog: the connection gets the frames of what
      changed, cut where it fails, and the last of them shows the catalog as it is
      at the last tick. */
  method Stream(c: Catalog.Catalog, between: seq<seq<Obs>>, w: Sse.Connection, encode: Snapshot -> string)
      returns (ghost snaps: seq<Snapshot>)
    requires c.Valid() && w.out == ""
    modifies c, c.apps.Values, w
    ensures c.Valid()
    ensures w.out == Sse.Cut(Sse.Print(Sse.Encoded(Sse.Changes(snaps), encode)), old(w.room))
    ensures Sse.Changes(snaps) != []
    ensures IsSnapshot(Sse.Changes(snaps)[|Sse.Changes(snaps)| - 1],
                       Version(c.View(), c.locked, c.lockedSeen), c.observations)
  {
    hide IsSnapshot, TakenFrom, Consistent, Catalog.ViewOf, Sse.Changes, Sse.Print;
    var seen := Watch(c, between);
    Sse.LastSentIsCurrent(seen, c.run);
    Sse.HandleCatalog(w, seen, encode);
    snaps := seen;
  }
}
