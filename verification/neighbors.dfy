/**
 `find_neighbors` (data_source.c): a linear scan of the path table that
 collects, in row order, the far endpoint of every row naming the given
 container, together with that row's distance. The distance is carried as the
 text of its column; its `strtod` conversion is not part of this model.
 */
module Neighbors {
  import opened Tables

  /** `Neighbor`: the id of the container at the other end and the distance. */
  datatype Neighbor = Neighbor(id: string, distance: string)

  /** Every path row has the three path columns. */
  predicate PathRows(paths: seq<Row>) {
    forall i :: 0 <= i < |paths| ==> |paths[i]| == PathColumnsCount
  }

  /** The row names `id` as endpoint A or endpoint B. */
  predicate Mentions(row: Row, id: string)
    requires |row| == PathColumnsCount
  {
    id == row[EndA.Index()] || id == row[EndB.Index()]
  }

  /** The entry a row contributes: endpoint B when `id` is endpoint A, and
      endpoint A otherwise. */
  function EntryOf(row: Row, id: string): Neighbor
    requires |row| == PathColumnsCount
  {
    var other := if id == row[EndA.Index()] then row[EndB.Index()] else row[EndA.Index()];
    Neighbor(other, row[Distance.Index()])
  }

  /** The neighbour list of `id` over the path table, built row by row: at
      most one entry per row (which rows, and what they contribute, is
      `NeighborsFollowRows`). */
  function NeighborsOf(paths: seq<Row>, id: string): (ns: seq<Neighbor>)
    requires PathRows(paths)
    ensures |ns| <= |paths|
  {
    if |paths| == 0 then []
    else
      var n := |paths| - 1;
      var last := paths[n];
      NeighborsOf(paths[..n], id) + (if Mentions(last, id) then [EntryOf(last, id)] else [])
  }

  /** The indices of the rows that name `id`: ascending, each one such a row,
      and every such row among them. */
  function MatchingRows(paths: seq<Row>, id: string): (idx: seq<nat>)
    requires PathRows(paths)
    ensures forall k :: 0 <= k < |idx| ==> idx[k] < |paths| && Mentions(paths[idx[k]], id)
    ensures forall k, l :: 0 <= k < l < |idx| ==> idx[k] < idx[l]
    ensures forall i :: 0 <= i < |paths| && Mentions(paths[i], id) ==> i in idx
  {
    if |paths| == 0 then []
    else
      var n := |paths| - 1;
      var front := MatchingRows(paths[..n], id);
      assert forall k :: 0 <= k < |front| ==> paths[..n][front[k]] == paths[front[k]];
      front + (if Mentions(paths[n], id) then [n] else [])
  }

  /** The neighbour list has exactly one entry per row naming `id`, in row
      order, and each entry is the far endpoint of its row (so a row linking
      `id` to itself yields `id`). */
  lemma {:induction false} NeighborsFollowRows(paths: seq<Row>, id: string)
    requires PathRows(paths)
    ensures var idx := MatchingRows(paths, id);
            && |NeighborsOf(paths, id)| == |idx|
            && forall k :: 0 <= k < |idx| ==> NeighborsOf(paths, id)[k] == EntryOf(paths[idx[k]], id)
    decreases |paths|
  {
    if |paths| > 0 {
      var n := |paths| - 1;
      var front := MatchingRows(paths[..n], id);
      var ns := NeighborsOf(paths[..n], id);
      NeighborsFollowRows(paths[..n], id);
      LastRowStep(paths, id);
      forall k | 0 <= k < |front|
        ensures NeighborsOf(paths, id)[k] == EntryOf(paths[MatchingRows(paths, id)[k]], id)
      {
        assert paths[..n][front[k]] == paths[front[k]];
      }
    }
  }

  /** The last path row extends both the neighbour list and the matching
      rows, or neither. */
  lemma LastRowStep(paths: seq<Row>, id: string)
    requires PathRows(paths) && |paths| > 0
    ensures var n := |paths| - 1;
            var hit := Mentions(paths[n], id);
            && NeighborsOf(paths, id) == NeighborsOf(paths[..n], id) + (if hit then [EntryOf(paths[n], id)] else [])
            && MatchingRows(paths, id) == MatchingRows(paths[..n], id) + (if hit then [n] else [])
  {
  }

  /** An entry is in the neighbour list exactly when some row names `id` and
      contributes that entry. */
  lemma NeighborMembership(paths: seq<Row>, id: string, nb: Neighbor)
    requires PathRows(paths)
    ensures nb in NeighborsOf(paths, id) <==>
              exists i :: 0 <= i < |paths| && Mentions(paths[i], id) && nb == EntryOf(paths[i], id)
  {
    NeighborsFollowRows(paths, id);
    var idx := MatchingRows(paths, id);
    var ns := NeighborsOf(paths, id);
    if nb in ns {
      var k :| 0 <= k < |ns| && ns[k] == nb;
      assert Mentions(paths[idx[k]], id) && nb == EntryOf(paths[idx[k]], id);
    }
    if exists i :: 0 <= i < |paths| && Mentions(paths[i], id) && nb == EntryOf(paths[i], id) {
      var i :| 0 <= i < |paths| && Mentions(paths[i], id) && nb == EntryOf(paths[i], id);
      var k :| 0 <= k < |idx| && idx[k] == i;
      assert ns[k] == nb;
    }
  }

  /** No row naming `id` means an empty list (count 0), and only then. */
  lemma NoNeighborsIffUnmentioned(paths: seq<Row>, id: string)
    requires PathRows(paths)
    ensures NeighborsOf(paths, id) == [] <==> forall i :: 0 <= i < |paths| ==> !Mentions(paths[i], id)
  {
    NeighborsFollowRows(paths, id);
    var idx := MatchingRows(paths, id);
    if exists i :: 0 <= i < |paths| && Mentions(paths[i], id) {
      var i :| 0 <= i < |paths| && Mentions(paths[i], id);
      assert i in idx;
    }
  }

  /** `find_neighbors(id, &count)` against the store: the loop over the path
      rows through the accessors. The result is the neighbour list, one entry
      per row naming `id` in row order, and `count` is its length. */
  method FindNeighbors(store: Store, id: string) returns (neighbors: seq<Neighbor>, count: nat)
    requires store.Valid()
    ensures count == |neighbors|
    ensures neighbors == NeighborsOf(store.paths, id)
    ensures var idx := MatchingRows(store.paths, id);
            |neighbors| == |idx| && forall k :: 0 <= k < |idx| ==> neighbors[k] == EntryOf(store.paths[idx[k]], id)
  {
    neighbors := [];
    count := 0;
    var i := 0;
    while i < store.pathsCount
      invariant i <= store.pathsCount
      invariant count == |neighbors|
      invariant neighbors == NeighborsOf(store.paths[..i], id)
    {
      var a := GetPathField(store, i, EndA).value;
      var b := GetPathField(store, i, EndB).value;
      if id == a || id == b {
        var other := if id == a then b else a;
        var distance := GetPathField(store, i, Distance).value;
        neighbors := neighbors + [Neighbor(other, distance)];
        count := count + 1;
      }
      assert store.paths[..i + 1][..i] == store.paths[..i];
      i := i + 1;
    }
    assert store.paths[..i] == store.paths;
    NeighborsFollowRows(store.paths, id);
  }
}
