/**
 The tabular store of data_source.c: `parse_csv` turns the lines of a file
 into rows of fixed width, all or nothing; `count_lines` counts the rows of the
 NULL-terminated array it returns; `init_data_source` loads the container
 table (9 columns) and the path table (3 columns); the `get_container_*` and
 `get_path_*` accessors read one column of one row, or give NULL for an index
 past the end. Reading the file is left out: a loader is given the lines.
 */
module Tables {
  import opened Optional
  import CsvSplit

  /** CONTAINER_COLUMNS_COUNT */
  const ContainerColumnsCount: nat := 9
  /** PATH_COLUMNS_COUNT */
  const PathColumnsCount: nat := 3

  /** One split line: its fields as raw text. */
  type Row = seq<string>

  /** The lines `readline` hands to the loader are C strings: none holds a
      terminator. */
  predicate CLines(lines: seq<string>) {
    forall i :: 0 <= i < |lines| ==> CsvSplit.NulFree(lines[i])
  }

  /** The column constants CONTAINER_ID .. CONTAINER_PUBLIC. */
  datatype ContainerColumn = Id | X | Y | WasteType | Capacity | Name | Street | Number | Public
  {
    function Index(): (i: nat)
      ensures i < ContainerColumnsCount
    {
      match this
      case Id => 0
      case X => 1
      case Y => 2
      case WasteType => 3
      case Capacity => 4
      case Name => 5
      case Street => 6
      case Number => 7
      case Public => 8
    }
  }

  /** The column constants PATH_A, PATH_B and PATH_DISTANCE. */
  datatype PathColumn = EndA | EndB | Distance
  {
    function Index(): (i: nat)
      ensures i < PathColumnsCount
    {
      match this
      case EndA => 0
      case EndB => 1
      case Distance => 2
    }
  }

  /** `struct data_source`: both tables with their row counts. */
  datatype Store = Store(containers: seq<Row>, containersCount: nat, paths: seq<Row>, pathsCount: nat)
  {
    /** What `init_data_source` establishes: the counts are the table sizes and
        every row has its table's width. */
    predicate Valid() {
      && containersCount == |containers|
      && pathsCount == |paths|
      && (forall i :: 0 <= i < |containers| ==> |containers[i]| == ContainerColumnsCount)
      && (forall i :: 0 <= i < |paths| ==> |paths[i]| == PathColumnsCount)
    }
  }

  /** The row loop of `parse_csv` from line `count` on, with `rows` split so
      far: each line is split into `columns` fields, and the first line that
      does not split makes the whole load fail. */
  function ParseLoop(lines: seq<string>, columns: nat, count: nat, rows: seq<Row>): (r: Option<seq<Row>>)
    requires CLines(lines)
    requires count == |rows| <= |lines|
    requires forall i :: 0 <= i < count ==> CsvSplit.SplitCsvLine(lines[i], columns) == Some(rows[i])
    ensures r.Some? <==> forall i :: count <= i < |lines| ==> CsvSplit.SplitCsvLine(lines[i], columns).Some?
    ensures r.Some? ==> |r.value| == |lines|
    ensures r.Some? ==> forall i :: 0 <= i < |lines| ==> CsvSplit.SplitCsvLine(lines[i], columns) == Some(r.value[i])
    decreases |lines| - count
  {
    if count == |lines| then
      Some(rows)
    else
      match CsvSplit.SplitCsvLine(lines[count], columns)
      case None => None
      case Some(row) => ParseLoop(lines, columns, count + 1, rows + [row])
  }

  /** `parse_csv` over the lines already read: either every line splits into
      `columns` fields and the rows are exactly those splits, in line order,
      or the load fails and no row is kept. */
  function ParseCsv(lines: seq<string>, columns: nat): (r: Option<seq<Row>>)
    requires CLines(lines)
    ensures r.Some? <==> forall i :: 0 <= i < |lines| ==> CsvSplit.SplitCsvLine(lines[i], columns).Some?
    ensures r.Some? ==> |r.value| == |lines|
    ensures r.Some? ==> forall i :: 0 <= i < |lines| ==>
              |r.value[i]| == columns && CsvSplit.SplitCsvLine(lines[i], columns) == Some(r.value[i])
  {
    ParseLoop(lines, columns, 0, [])
  }

  /** The array `parse_csv` returns: the rows followed by the NULL slot that
      `calloc` left behind them. */
  function Terminated(rows: seq<Row>): (slots: seq<Option<Row>>)
    ensures |slots| == |rows| + 1 && slots[|rows|] == None
    ensures forall i :: 0 <= i < |rows| ==> slots[i] == Some(rows[i])
  {
    seq(|rows|, i requires 0 <= i < |rows| => Some(rows[i])) + [None]
  }

  /** `count_lines` from slot `from` on. */
  function CountFrom<T>(slots: seq<Option<T>>, from: nat): (count: nat)
    requires from <= |slots|
    requires exists i :: from <= i < |slots| && slots[i] == None
    requires forall i :: 0 <= i < from ==> slots[i].Some?
    ensures from <= count < |slots| && slots[count] == None
    ensures forall i :: 0 <= i < count ==> slots[i].Some?
    decreases |slots| - from
  {
    if slots[from] == None then from else CountFrom(slots, from + 1)
  }

  /** `count_lines`: the number of slots before the first NULL. */
  function CountLines<T>(slots: seq<Option<T>>): (count: nat)
    requires exists i :: 0 <= i < |slots| && slots[i] == None
    ensures count < |slots| && slots[count] == None
    ensures forall i :: 0 <= i < count ==> slots[i].Some?
  {
    CountFrom(slots, 0)
  }

  /** Counting a terminated table gives back its number of rows. */
  lemma CountTerminated(rows: seq<Row>)
    ensures CountLines(Terminated(rows)) == |rows|
  {
  }

  /** `init_data_source` over the lines of both files: it fails when either
      file fails to load; otherwise every container row is the 9-field split of
      its line, every path row the 3-field split of its line, and each count is
      that file's number of lines. */
  function InitDataSource(containerLines: seq<string>, pathLines: seq<string>): (r: Option<Store>)
    requires CLines(containerLines) && CLines(pathLines)
    ensures r.Some? <==>
              && (forall i :: 0 <= i < |containerLines| ==>
                    CsvSplit.SplitCsvLine(containerLines[i], ContainerColumnsCount).Some?)
              && (forall i :: 0 <= i < |pathLines| ==>
                    CsvSplit.SplitCsvLine(pathLines[i], PathColumnsCount).Some?)
    ensures r.Some? ==> r.value.Valid()
    ensures r.Some? ==> r.value.containersCount == |containerLines| && r.value.pathsCount == |pathLines|
    ensures r.Some? ==>
              && (forall i :: 0 <= i < |containerLines| ==>
                    CsvSplit.SplitCsvLine(containerLines[i], ContainerColumnsCount) == Some(r.value.containers[i]))
              && (forall i :: 0 <= i < |pathLines| ==>
                    CsvSplit.SplitCsvLine(pathLines[i], PathColumnsCount) == Some(r.value.paths[i]))
  {
    match ParseCsv(containerLines, ContainerColumnsCount)
    case None => None
    case Some(containers) =>
      match ParseCsv(pathLines, PathColumnsCount)
      case None => None
      case Some(paths) =>
        CountTerminated(containers);
        CountTerminated(paths);
        Some(Store(containers, CountLines(Terminated(containers)), paths, CountLines(Terminated(paths))))
  }

  /** The nine `get_container_*` accessors: one column of row `index`, or
      NULL when the index is not below the container count. */
  function GetContainerField(store: Store, index: nat, column: ContainerColumn): (r: Option<string>)
    requires store.Valid()
    ensures r.None? <==> index >= |store.containers|
    ensures r.Some? ==> r.value == store.containers[index][column.Index()]
  {
    if index >= store.containersCount then None else Some(store.containers[index][column.Index()])
  }

  /** The three `get_path_*` accessors: one column of row `index`, or NULL
      when the index is not below the path count. */
  function GetPathField(store: Store, index: nat, column: PathColumn): (r: Option<string>)
    requires store.Valid()
    ensures r.None? <==> index >= |store.paths|
    ensures r.Some? ==> r.value == store.paths[index][column.Index()]
  {
    if index >= store.pathsCount then None else Some(store.paths[index][column.Index()])
  }

  /** When every line splits, the store loads, and a container accessor
      reads field `column` of the split of line `index`, or gives NULL exactly
      past the last line. */
  lemma ContainerFieldOfLine(containerLines: seq<string>, pathLines: seq<string>, index: nat, column: ContainerColumn)
    requires CLines(containerLines) && CLines(pathLines)
    requires forall i :: 0 <= i < |containerLines| ==>
               CsvSplit.SplitCsvLine(containerLines[i], ContainerColumnsCount).Some?
    requires forall i :: 0 <= i < |pathLines| ==>
               CsvSplit.SplitCsvLine(pathLines[i], PathColumnsCount).Some?
    ensures InitDataSource(containerLines, pathLines).Some?
    ensures var store := InitDataSource(containerLines, pathLines).value;
            GetContainerField(store, index, column)
            == if index < |containerLines|
               then Some(CsvSplit.SplitCsvLine(containerLines[index], ContainerColumnsCount).value[column.Index()])
               else None
  {
  }

  /** When every line splits, the store loads, and a path accessor reads
      field `column` of the split of line `index`, or gives NULL exactly past
      the last line. */
  lemma PathFieldOfLine(containerLines: seq<string>, pathLines: seq<string>, index: nat, column: PathColumn)
    requires CLines(containerLines) && CLines(pathLines)
    requires forall i :: 0 <= i < |containerLines| ==>
               CsvSplit.SplitCsvLine(containerLines[i], ContainerColumnsCount).Some?
    requires forall i :: 0 <= i < |pathLines| ==>
               CsvSplit.SplitCsvLine(pathLines[i], PathColumnsCount).Some?
    ensures InitDataSource(containerLines, pathLines).Some?
    ensures var store := InitDataSource(containerLines, pathLines).value;
            GetPathField(store, index, column)
            == if index < |pathLines|
               then Some(CsvSplit.SplitCsvLine(pathLines[index], PathColumnsCount).value[column.Index()])
               else None
  {
  }
}
