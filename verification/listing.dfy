/**
 The listing of `print_containers` (data_source.c): which containers it
 prints, in which order, and what it prints of each, without the `printf`
 formatting. A container is listed when its waste type, capacity and public
 flag all pass the filters. `atoi`, which turns the capacity and public
 columns into numbers, is a parameter `toInt`.

 As written, the guard meant to let an empty code list match everything
 compares `filters.waste_types[0]`, the first code's array, with '\0'; an
 array never compares equal to a null pointer constant, so the guard never fires and an
 empty code list matches no container.
 */
module Listing {
  import opened Optional
  import opened Tables
  import opened Args
  import opened Neighbors

  /** The `switch` on a requested code: the waste-type label it selects.
      Only the six codes A, P, B, G, C and T select one. */
  function WasteLabel(code: char): (r: Option<string>)
    ensures r.Some? <==> code in "APBGCT"
    ensures r.Some? ==> r.value != ""
  {
    match code
    case 'A' => Some("Plastics and Aluminium")
    case 'P' => Some("Paper")
    case 'B' => Some("Biodegradable waste")
    case 'G' => Some("Clear glass")
    case 'C' => Some("Colored glass")
    case 'T' => Some("Textile")
    case _ => None
  }

  /** The `for` loop over the requested codes from `j` on: each known code ORs
      in whether its label equals the container's type, and the loop stops at
      the first hit. */
  function TypeScan(codes: seq<char>, j: nat, wasteType: string, matched: bool): (r: bool)
    requires j <= |codes|
    ensures r <==> matched || exists k :: j <= k < |codes| && WasteLabel(codes[k]) == Some(wasteType)
    decreases |codes| - j
  {
    if j == |codes| then matched
    else
      var matched' := matched || WasteLabel(codes[j]) == Some(wasteType);
      if matched' then matched' else TypeScan(codes, j + 1, wasteType, matched')
  }

  /** The waste-type part of the filter, as written: the guard never fires,
      so the container's type must be the label of some requested code, and
      no code at all matches nothing. */
  function WasteTypeMatch(codes: seq<char>, wasteType: string): (r: bool)
    ensures r <==> exists k :: 0 <= k < |codes| && WasteLabel(codes[k]) == Some(wasteType)
    ensures |codes| == 0 ==> !r
  {
    TypeScan(codes, 0, wasteType, false)
  }

  /** The capacity part: a 0/0 range matches any capacity, otherwise the
      range is inclusive at both ends, so an inverted range matches nothing. */
  function CapacityMatch(min: int, max: int, capacity: int): (r: bool)
    ensures min == 0 && max == 0 ==> r
    ensures (min != 0 || max != 0) && r ==> min <= capacity <= max
    ensures min <= capacity <= max ==> r
    ensures (min != 0 || max != 0) && max < min ==> !r
  {
    (min == 0 && max == 0) || (capacity >= min && capacity <= max)
  }

  /** The public part: -1 matches any flag, otherwise the flag must equal it. */
  function PublicMatch(filter: int, value: int): (r: bool)
    ensures filter == -1 ==> r
    ensures filter != -1 ==> (r <==> value == filter)
  {
    filter == -1 || value == filter
  }

  /** The condition `print_containers` tests before printing a row: some
      requested code labels the row's type, and the capacity and public
      parts hold. */
  function Matches(f: Filters, row: Row, toInt: string -> int): (r: bool)
    requires |row| == ContainerColumnsCount
    ensures r <==>
              && (exists k :: 0 <= k < |f.wasteTypes| && WasteLabel(f.wasteTypes[k]) == Some(row[WasteType.Index()]))
              && CapacityMatch(f.capacityMin, f.capacityMax, toInt(row[Capacity.Index()]))
              && PublicMatch(f.publicFilter, toInt(row[Public.Index()]))
  {
    && WasteTypeMatch(f.wasteTypes, row[WasteType.Index()])
    && CapacityMatch(f.capacityMin, f.capacityMax, toInt(row[Capacity.Index()]))
    && PublicMatch(f.publicFilter, toInt(row[Public.Index()]))
  }

  /** Rows of the container table that are printed. */
  predicate Listed(store: Store, f: Filters, toInt: string -> int, i: nat)
    requires store.Valid() && i < store.containersCount
  {
    Matches(f, store.containers[i], toInt)
  }

  /** The indices of the printed rows among the first `n`: ascending, and an
      index is there exactly when its row passes the filters. */
  function SelectedUpTo(store: Store, f: Filters, toInt: string -> int, n: nat): (r: seq<nat>)
    requires store.Valid() && n <= store.containersCount
    ensures forall k :: 0 <= k < |r| ==> r[k] < n
    ensures forall k, l :: 0 <= k < l < |r| ==> r[k] < r[l]
    ensures forall i :: 0 <= i < n ==> (i in r <==> Listed(store, f, toInt, i))
  {
    if n == 0 then []
    else SelectedUpTo(store, f, toInt, n - 1) + (if Listed(store, f, toInt, n - 1) then [n - 1] else [])
  }

  /** The indices of all printed rows, in table order. */
  function Selected(store: Store, f: Filters, toInt: string -> int): seq<nat>
    requires store.Valid()
  {
    SelectedUpTo(store, f, toInt, store.containersCount)
  }

  /** What one printed line shows: id, type, capacity, street and the ids of
      the container's neighbours in path-row order. */
  datatype Entry = Entry(id: string, wasteType: string, capacity: string, street: string,
                         neighbors: seq<string>)

  /** The ids of a neighbour list. */
  function Ids(ns: seq<Neighbor>): (ids: seq<string>)
    ensures |ids| == |ns| && forall k :: 0 <= k < |ns| ==> ids[k] == ns[k].id
  {
    seq(|ns|, k requires 0 <= k < |ns| => ns[k].id)
  }

  /** The line printed for container row `i`. */
  function EntryFor(store: Store, i: nat): Entry
    requires store.Valid() && i < store.containersCount
  {
    var row := store.containers[i];
    Entry(row[Id.Index()], row[WasteType.Index()], row[Capacity.Index()], row[Street.Index()],
          Ids(NeighborsOf(store.paths, row[Id.Index()])))
  }

  /** The printed entries of the rows `sel`, in that order. */
  function Entries(store: Store, sel: seq<nat>): (es: seq<Entry>)
    requires store.Valid()
    requires forall k :: 0 <= k < |sel| ==> sel[k] < store.containersCount
    ensures |es| == |sel| && forall k :: 0 <= k < |sel| ==> es[k] == EntryFor(store, sel[k])
  {
    seq(|sel|, k requires 0 <= k < |sel| => EntryFor(store, sel[k]))
  }

  /** One more row: its entry is appended exactly when it passes. */
  lemma EntriesStep(store: Store, f: Filters, toInt: string -> int, i: nat)
    requires store.Valid() && i < store.containersCount
    ensures Entries(store, SelectedUpTo(store, f, toInt, i + 1))
            == Entries(store, SelectedUpTo(store, f, toInt, i))
               + (if Listed(store, f, toInt, i) then [EntryFor(store, i)] else [])
  {
    var before := SelectedUpTo(store, f, toInt, i);
    if Listed(store, f, toInt, i) {
      assert SelectedUpTo(store, f, toInt, i + 1) == before + [i];
    } else {
      assert SelectedUpTo(store, f, toInt, i + 1) == before;
    }
  }

  /** One turn of the loop of `print_containers`: the listing of the first
      `i + 1` rows is that of the first `i`, followed by the entry of row `i`
      when the row passes the three parts of the filter. */
  lemma ListingStep(store: Store, f: Filters, toInt: string -> int, i: nat, listing: seq<Entry>,
                    listed: bool, entry: Entry)
    requires store.Valid() && i < store.containersCount
    requires listing == Entries(store, SelectedUpTo(store, f, toInt, i))
    requires var row := store.containers[i];
             listed == (&& WasteTypeMatch(f.wasteTypes, row[WasteType.Index()])
                        && CapacityMatch(f.capacityMin, f.capacityMax, toInt(row[Capacity.Index()]))
                        && PublicMatch(f.publicFilter, toInt(row[Public.Index()])))
    requires listed ==> entry == EntryFor(store, i)
    ensures (if listed then listing + [entry] else listing)
            == Entries(store, SelectedUpTo(store, f, toInt, i + 1))
  {
    EntriesStep(store, f, toInt, i);
  }

  /** `print_containers`: one entry per row passing the filters, in table
      order, each with the neighbours `find_neighbors` reports for it. */
  method PrintContainers(store: Store, f: Filters, toInt: string -> int) returns (listing: seq<Entry>)
    requires store.Valid()
    ensures var sel := Selected(store, f, toInt);
            |listing| == |sel| && forall k :: 0 <= k < |sel| ==> listing[k] == EntryFor(store, sel[k])
  {
    listing := [];
    var i := 0;
    while i < store.containersCount
      invariant i <= store.containersCount
      invariant listing == Entries(store, SelectedUpTo(store, f, toInt, i))
    {
      var row := store.containers[i];
      var wasteTypeMatch := WasteTypeMatch(f.wasteTypes, row[WasteType.Index()]);
      var capacityMatch := CapacityMatch(f.capacityMin, f.capacityMax, toInt(row[Capacity.Index()]));
      var publicMatch := PublicMatch(f.publicFilter, toInt(row[Public.Index()]));
      var listed := wasteTypeMatch && capacityMatch && publicMatch;
      var entry := EntryFor(store, i);
      if listed {
        var neighbors, count := FindNeighbors(store, row[Id.Index()]);
        entry := Entry(row[Id.Index()], row[WasteType.Index()], row[Capacity.Index()],
                       row[Street.Index()], Ids(neighbors));
      }
      ListingStep(store, f, toInt, i, listing, listed, entry);
      if listed {
        listing := listing + [entry];
      }
      i := i + 1;
    }
  }

  /** With no code requested nothing is listed, whatever the other filters
      and the table hold. */
  lemma EmptyCodesListNothing(store: Store, f: Filters, toInt: string -> int)
    requires store.Valid() && |f.wasteTypes| == 0
    ensures Selected(store, f, toInt) == []
  {
    NoneListedUpTo(store, f, toInt, store.containersCount);
  }

  /** When no row among the first `n` passes, none is selected. */
  lemma {:induction false} NoneListedUpTo(store: Store, f: Filters, toInt: string -> int, n: nat)
    requires store.Valid() && n <= store.containersCount
    requires forall i :: 0 <= i < n ==> !Listed(store, f, toInt, i)
    ensures SelectedUpTo(store, f, toInt, n) == []
  {
    if n > 0 {
      NoneListedUpTo(store, f, toInt, n - 1);
    }
  }

  /** A run without options lists nothing. */
  lemma NoOptionsListNothing(store: Store, positionals: seq<string>, toInt: string -> int)
    requires store.Valid() && |positionals| >= 2
    ensures ParseArgs([], positionals).Some?
    ensures Selected(store, ParseArgs([], positionals).value, toInt) == []
  {
    EmptyCodesListNothing(store, ParseArgs([], positionals).value, toInt);
  }

  /** Without `-p` the public filter stays 0: only containers whose public
      column reads as 0 are listed. */
  lemma NoPublicOptionListsOnlyZero(store: Store, events: seq<OptEvent>, positionals: seq<string>,
                                    toInt: string -> int, i: nat)
    requires store.Valid()
    requires ParseArgs(events, positionals).Some?
    requires forall j :: 0 <= j < |events| ==> !events[j].PublicOpt?
    requires i in Selected(store, ParseArgs(events, positionals).value, toInt)
    ensures toInt(store.containers[i][Public.Index()]) == 0
  {
    NoPublicIsZero(events);
  }

  /** The public filter is 0 when no `-p` was given. */
  lemma {:induction false} NoPublicIsZero(events: seq<OptEvent>)
    requires forall j :: 0 <= j < |events| ==> !events[j].PublicOpt?
    ensures LastPublic(events) == 0
    decreases |events|
  {
    if |events| > 0 {
      NoPublicIsZero(events[..|events| - 1]);
    }
  }

  /** Requesting more codes never hides a listed container. */
  lemma MoreCodesListMore(store: Store, f: Filters, g: Filters, toInt: string -> int, i: nat)
    requires store.Valid()
    requires forall k :: 0 <= k < |f.wasteTypes| ==> f.wasteTypes[k] in g.wasteTypes
    requires g == f.(wasteTypes := g.wasteTypes)
    requires i in Selected(store, f, toInt)
    ensures i in Selected(store, g, toInt)
  {
    var row := store.containers[i];
    var k :| 0 <= k < |f.wasteTypes| && WasteLabel(f.wasteTypes[k]) == Some(row[WasteType.Index()]);
    var k' :| 0 <= k' < |g.wasteTypes| && g.wasteTypes[k'] == f.wasteTypes[k];
    assert WasteTypeMatch(g.wasteTypes, row[WasteType.Index()]);
  }

  /** A row is listed exactly when all three parts hold: some requested
      code's label is its type, the capacity lies in the range or the range is
      0/0, and the public flag equals the filter or the filter is -1. */
  lemma SelectedIff(store: Store, f: Filters, toInt: string -> int, i: nat)
    requires store.Valid() && i < store.containersCount
    ensures var row := store.containers[i];
            var capacity := toInt(row[Capacity.Index()]);
            var flag := toInt(row[Public.Index()]);
            i in Selected(store, f, toInt) <==>
              && (exists k :: 0 <= k < |f.wasteTypes| && WasteLabel(f.wasteTypes[k]) == Some(row[WasteType.Index()]))
              && ((f.capacityMin == 0 && f.capacityMax == 0) || (f.capacityMin <= capacity <= f.capacityMax))
              && (f.publicFilter == -1 || flag == f.publicFilter)
  {
  }
}
