/**
 A small worked example through the option fold, the filter and the
 neighbour scan: two paper containers sharing a spot, one private and one
 public, and a biodegradable one linked to the first by a path.
 */
module Scenario {
  import opened Optional
  import opened Tables
  import opened Args
  import opened Neighbors
  import opened Listing

  /** Containers C1 (paper, private), C2 (paper, public), C3 (biodegradable,
      private) and one path C1-C3 of length 2.5. */
  function ExampleStore(): (s: Store)
    ensures s.Valid()
  {
    var c1 := ["C1", "0", "0", "Paper", "10", "", "", "", "0"];
    var c2 := ["C2", "0", "0", "Paper", "20", "", "", "", "1"];
    var c3 := ["C3", "5", "5", "Biodegradable waste", "5", "", "", "", "0"];
    Store([c1, c2, c3], 3, [["C1", "C3", "2.5"]], 1)
  }

  /** The positional paths of the example run. */
  const ExamplePaths: seq<string> := ["containers.csv", "paths.csv"]

  /** `-t P` gives the single code 'P' with every number still 0; adding
      `-p Y` changes only the public filter, to -1. */
  lemma ExampleOptions()
    ensures ParseArgs([TypeOpt("P")], ExamplePaths)
            == Some(Filters(['P'], 0, 0, 0, 0, ExamplePaths[0], ExamplePaths[1]))
    ensures ParseArgs([TypeOpt("P"), PublicOpt("Y")], ExamplePaths)
            == Some(Filters(['P'], 0, 0, -1, 0, ExamplePaths[0], ExamplePaths[1]))
  {
    var e1 := [TypeOpt("P")];
    var e2 := [TypeOpt("P"), PublicOpt("Y")];
    assert e2[..1] == e1 && e1[..0] == [];
    assert AppendCodes([], "P") == ['P'];
  }

  /** Which example rows pass a filter asking for paper with a 0/0 range:
      C1 always, C2 exactly when the public filter admits flag 1, C3 never. */
  lemma ExampleRows(toInt: string -> int, publicFilter: int)
    requires toInt("0") == 0 && toInt("1") == 1
    ensures var f := Filters(['P'], 0, 0, publicFilter, 0, ExamplePaths[0], ExamplePaths[1]);
            && (Listed(ExampleStore(), f, toInt, 0) <==> publicFilter == -1 || publicFilter == 0)
            && (Listed(ExampleStore(), f, toInt, 1) <==> publicFilter == -1 || publicFilter == 1)
            && !Listed(ExampleStore(), f, toInt, 2)
  {
    assert WasteLabel('P') == Some("Paper");
    assert WasteTypeMatch(['P'], "Paper");
    assert !WasteTypeMatch(['P'], "Biodegradable waste");
  }

  /** `-t P` alone lists only C1: the public filter stays 0, so the public
      container C2 is left out. With `-p Y` as well, C1 and C2 are listed. */
  lemma ExampleSelection(toInt: string -> int)
    requires toInt("0") == 0 && toInt("1") == 1
    ensures Selected(ExampleStore(), Filters(['P'], 0, 0, 0, 0, ExamplePaths[0], ExamplePaths[1]), toInt) == [0]
    ensures Selected(ExampleStore(), Filters(['P'], 0, 0, -1, 0, ExamplePaths[0], ExamplePaths[1]), toInt) == [0, 1]
  {
    var store := ExampleStore();
    var f1 := Filters(['P'], 0, 0, 0, 0, ExamplePaths[0], ExamplePaths[1]);
    var f2 := f1.(publicFilter := -1);
    ExampleRows(toInt, 0);
    ExampleRows(toInt, -1);
    assert SelectedUpTo(store, f1, toInt, 0) == [];
    assert SelectedUpTo(store, f1, toInt, 1) == [0];
    assert SelectedUpTo(store, f1, toInt, 2) == [0];
    assert SelectedUpTo(store, f2, toInt, 0) == [];
    assert SelectedUpTo(store, f2, toInt, 1) == [0];
    assert SelectedUpTo(store, f2, toInt, 2) == [0, 1];
  }

  /** C1's neighbour list is C3 (with the path's distance), and C2 has none. */
  lemma ExampleNeighbors()
    ensures NeighborsOf(ExampleStore().paths, "C1") == [Neighbor("C3", "2.5")]
    ensures NeighborsOf(ExampleStore().paths, "C2") == []
    ensures EntryFor(ExampleStore(), 0).neighbors == ["C3"]
    ensures EntryFor(ExampleStore(), 1).neighbors == []
  {
    var paths := ExampleStore().paths;
    assert paths[..0] == [];
  }
}
