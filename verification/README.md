# GarbageContainer table pipeline in Dafny

This project models the table pipeline of the GarbageContainer tool. The tool reads a
container file and a path file. Each is a comma-separated file without quoting. It then
prints the containers that pass the command-line filters, each with its directly
connected neighbours. The model covers these parts:

- `split_csv_line`: the row splitter. It uses `strtok` and a `parsed_length` cursor so that
  consecutive commas give empty fields (`CsvSplit`, proved facts in `SplitFacts`).
- The row loop of `parse_csv`, `count_lines` and `init_data_source`: an all-or-nothing
  loader over already-read lines. Also the bounds-checked `get_container_*` and
  `get_path_*` accessors (`Tables`).
- `find_neighbors`: the linear scan of the path table (`Neighbors`).
- The filter inside `print_containers`: the waste-type code table, the capacity range
  with its 0/0 sentinel and the public flag with its -1 sentinel. Also the listing it
  prints, minus the formatting (`Listing`).
- `parse_args` of parse_args.c: a fold over the options `getopt` reports, then the check
  for the two positional paths (`Args`).
- A worked example through these parts (`Scenario`).

`strtok` is modelled as the C library implements it. It skips commas at the saved position
and takes the run up to the next comma. It overwrites that comma with the terminator and
saves the position after it. The empty-field test at data_source.c:132-133 reads this
overwritten buffer. So the model carries the buffer, and the test is
`parsed < |buf| && buf[parsed] == ','`. A line is the content of a C string, so it holds
no NUL character (`NulFree`), and its length is its `strlen`. The splitter and the loader
require this of their lines.

The defects in the source are modelled as written:

- The guard at data_source.c:402 compares `filters.waste_types[0]`, the array holding the
  first code, with `'\0'`. An array never equals a null pointer constant. So the guard
  never fires, and an empty code list matches no container (`Listing.EmptyCodesListNothing`,
  `Listing.NoOptionsListNothing`).
- `-p Y` sets the public filter to -1, which matches every container. `-p N` sets it
  to 1. Without `-p` it stays 0, so only containers whose flag reads 0 are listed
  (`Listing.NoPublicOptionListsOnlyZero`).
- A trailing comma adds no empty field (`SplitFacts.SplitTrailingComma`). A leading
  comma is swallowed by `strtok`. After leading commas, the cursor lags the real
  position, which can move an empty field (`SplitFacts.LeadingCommasShiftEmptyField`).

## Model

| member | source | states |
|---|---|---|
| CsvSplit.Strtok | data_source.c:113-136 | a `strtok` token is never empty and holds no comma. The buffer keeps its length and changes only at the terminator written before the new save position. |
| CsvSplit.SkipCommas | data_source.c:113 | the `strspn` step inside `strtok`: the first position at or after the start that holds no comma. Everything skipped is a comma. |
| CsvSplit.RunEnd | data_source.c:136 | the `strcspn` step inside `strtok`: the token runs to the first comma or terminator. Nothing inside it is a comma or a terminator. |
| CsvSplit.SplitFields | data_source.c:116-143 | the splitting loop either fails or ends with exactly `expected` comma-free fields. The fields already copied are kept as a prefix. |
| CsvSplit.SplitCsvLine | data_source.c:104-146 | `split_csv_line` either fails (NULL) or returns exactly `expected_count` fields, none holding a comma. |
| SplitFacts.LoopEmits | data_source.c:116-143 | loop invariant carried to the end. While the token is the plain piece at the cursor, the loop emits the remaining pieces. It succeeds iff their number is what is left to fill. |
| SplitFacts.SplitEmits | data_source.c:113-143 | for a non-empty line without a leading comma, the split succeeds iff the emitted pieces number `expected_count`. The emitted pieces are the plain comma split minus an empty last piece. The split returns them. |
| SplitFacts.SplitPlainLine | data_source.c:113-137 | for a line with no leading and no trailing comma, the split succeeds iff the plain comma split has `expected_count` pieces. The fields then equal those pieces, including empty ones between consecutive commas. |
| SplitFacts.SplitTrailingComma | data_source.c:132-136 | a trailing comma contributes no empty field. The line splits into its plain pieces without the last one and fails for any other count. |
| SplitFacts.LeadingCommaSwallowed | data_source.c:113 | `strtok` drops a leading comma: ",a,b" gives exactly "a" and "b". |
| SplitFacts.LeadingCommasShiftEmptyField | data_source.c:113-136 | after leading commas the cursor lags, and the empty-field test fires at the wrong place: ",,a,,b" gives "a", "b", "". |
| SplitFacts.PiecesJoinFrom | data_source.c:113-137 | the reference split used above is faithful. Its pieces hold no comma, and joining them with commas gives back the line. |
| Tables.ParseLoop | data_source.c:169-192 | the row loop succeeds iff every remaining line splits. Its result then has one row per line, each row the split of its line. |
| Tables.ParseCsv | data_source.c:148-202 | the loader is all-or-nothing. One line that fails to split fails the whole load, with no rows kept. Otherwise there is one row per line, in order, each with `column_count` fields. |
| Tables.CountLines | data_source.c:204-210 | `count_lines` returns the index of the first NULL slot. Every slot before it holds a row. |
| Tables.CountTerminated | data_source.c:159-210 | counting the NULL-terminated array `parse_csv` returns gives its number of rows. |
| Tables.InitDataSource | data_source.c:212-233 | initialisation fails iff either file has a line that does not split (9 columns for containers, 3 for paths). Otherwise the counts equal the numbers of lines, and every row is the split of its line. |
| Tables.GetContainerField | data_source.c:241-302 | a container accessor returns NULL iff the index is past the last row. Otherwise it returns the field of the requested column in that row. |
| Tables.GetPathField | data_source.c:304-323 | a path accessor returns NULL iff the index is past the last row. Otherwise it returns the field of the requested column in that row. |
| Tables.ContainerFieldOfLine | data_source.c:241-302 | when every line splits, the store loads, and a container accessor returns field `column` of the split of line `index`. It returns NULL exactly when the index is not below the line count. |
| Tables.PathFieldOfLine | data_source.c:304-323 | when every line splits, the store loads, and a path accessor returns field `column` of the split of line `index`. It returns NULL exactly when the index is not below the line count. |
| Neighbors.NeighborsOf | data_source.c:376-390 | the neighbour list built row by row has at most one entry per path row. `NeighborsFollowRows` states which rows contribute and what. |
| Neighbors.MatchingRows | data_source.c:376-381 | the rows naming the id as endpoint A or B, listed in ascending order, every such row included. |
| Neighbors.NeighborsFollowRows | data_source.c:376-390 | there is exactly one neighbour entry per path row naming the id, in path-row order. The entry is endpoint B when the id is A, and A otherwise, so a self-loop yields the id itself. |
| Neighbors.NeighborMembership | data_source.c:380-388 | an entry is in the neighbour list iff some path row names the id and contributes that entry. |
| Neighbors.NoNeighborsIffUnmentioned | data_source.c:373-390 | the list is empty (count 0) iff no path row names the id. |
| Neighbors.FindNeighbors | data_source.c:372-393 | the scan returns one entry per matching row, in row order, with the distance of that row. The count is the list's length. |
| Args.AppendCodes | parse_args.c:14-18 | the `-t` loop keeps the codes already held as a prefix. It appends the argument's characters in order and never grows past eight codes. |
| Args.Apply | parse_args.c:12-38 | one option fails iff it is rejected: unknown, or `-p` whose argument does not start with N or Y. An accepted option changes only its own fields, and never the paths. |
| Args.ApplyAll | parse_args.c:11-39 | the option loop fails iff some option is rejected. On success the paths are still unset and at most eight codes are held. |
| Args.AppendCodesTakes | parse_args.c:14-18 | the `-t` loop appends characters while fewer than eight codes are held. The result is the first eight characters of the old codes followed by the argument. |
| Args.ApplyAllFields | parse_args.c:11-43 | the option loop fails iff an option is unknown or `-p` has an argument not starting with N or Y. Otherwise codes, bounds, public filter and special flag are what their options made of them, starting from zero. |
| Args.ParseArgs | parse_args.c:7-54 | `parse_args` fails iff an option is rejected or fewer than two positionals follow. Otherwise: codes are the first eight characters of all `-t` arguments, in order. `-c` sets min and max. The last `-p` gives 1 for N and -1 for Y (0 without one). `-s` sets the special flag to 1. The paths are the first two positionals. |
| Listing.WasteLabel | data_source.c:407-426 | exactly the codes A, P, B, G, C and T select a waste-type label, and that label is non-empty. |
| Listing.CapacityMatch | data_source.c:433-434 | the 0/0 range matches any capacity. Any other range matches exactly the capacities inside it, both ends included, so an inverted range matches nothing. |
| Listing.PublicMatch | data_source.c:436 | the filter -1 matches every flag. Any other filter matches only a flag equal to it. |
| Listing.Matches | data_source.c:401-438 | a row passes iff some requested code labels its type and the capacity and public parts both hold. |
| Listing.TypeScan | data_source.c:405-430 | the code loop with its early `break` yields true iff some remaining code's label equals the container's type. |
| Listing.WasteTypeMatch | data_source.c:401-431 | the waste-type part holds iff some requested code in A, P, B, G, C, T maps to a label equal to the container's type. Other codes never match, and an empty code list matches nothing. |
| Listing.SelectedUpTo | data_source.c:396-438 | the listed rows among the first n are in ascending table order. A row is among them iff it passes the filters. |
| Listing.SelectedIff | data_source.c:433-438 | a container is listed iff all three parts hold. First, some requested code's label is its type. Second, the range is 0/0 or min ≤ capacity ≤ max. Third, the filter is -1 or the flag equals it. |
| Listing.ListingStep | data_source.c:396-461 | one turn of the loop: the listing of the first i+1 rows is the listing of the first i. Row i's entry is appended iff the three parts of the filter hold for it. |
| Listing.PrintContainers | data_source.c:395-462 | one entry per container passing the filters, in table order. Each entry holds id, type, capacity, street and the neighbour ids `find_neighbors` reports. |
| Listing.EmptyCodesListNothing | data_source.c:401-404 | with no code requested, no container is listed. |
| Listing.NoOptionsListNothing | data_source.c:401-431 | a run without options parses, and it lists nothing. |
| Listing.NoPublicIsZero | parse_args.c:8-33 | without `-p` the public filter stays 0. |
| Listing.NoPublicOptionListsOnlyZero | data_source.c:436 | without `-p`, every listed container's public column reads 0. |
| Listing.MoreCodesListMore | data_source.c:405-430 | requesting more codes, with the other filters unchanged, never hides a listed container. |
| Scenario.ExampleOptions | parse_args.c:13-33 | `-t P` gives code P with all numbers 0. Adding `-p Y` changes only the public filter, to -1. |
| Scenario.ExampleRows | data_source.c:433-436 | in the example, C1 passes with public filter 0 or -1 and C2 with 1 or -1. The biodegradable C3 never passes a paper filter. |
| Scenario.ExampleSelection | data_source.c:395-438 | `-t P` lists only C1. `-t P -p Y` lists C1 and C2. |
| Scenario.ExampleNeighbors | data_source.c:372-393 | C1's neighbours are C3 with distance text 2.5, and C2 has none. |

## Left out

- `readline` and the file handling of `parse_csv` (`fopen`, `ferror`, `fclose`) are file I/O. The loader gets the lines already read, without their newlines. `readline` also drops a last line that has no newline; this is not modelled.
- Allocation failures (`calloc`, `malloc` or `realloc` returning NULL), the `realloc` growth strategy, `free_pointer_array`, `free_splitted_lines` and `destroy_data_source` are memory management. Allocation is assumed to succeed.
- The global `data_source` singleton is replaced by a `Store` value passed explicitly.
- `strtod` on the distance column: the distance is carried as its text, unchanged.
- `atoi` on the capacity and public columns is library parsing. It is the parameter `toInt`.
- `sscanf(optarg, "%d-%d", …)`: how the text of a `-c` argument converts is library parsing. The model takes its outcome: both numbers, only the first, or none.
- `getopt`: argument permutation, `optind`, and how it detects unknown options or missing arguments are library behaviour. The model takes the reported options in order and the remaining positionals.
- Everything `print_containers` prints with `printf` (data_source.c:439-460) is output formatting, including the fields passed as format strings. The model returns the printed data instead.
- container.c and container.h: allocation wrappers and float printing, not used by the listing.
- main.c: wiring only, and it ignores the result of `init_data_source`.
- The second `parse_args` at data_source.c:325-369 duplicates parse_args.c without `-s`, so only the parse_args.c version is modelled.
- The header declaring the `Filters` struct is not part of this model. Its field order is inferred from the initializer at parse_args.c:8, whose values are all zero or NULL.
- Station clustering and a `-s` mode: none of parse_args.c, data_source.c, container.c or
  main.c contains station clustering, and none of them reads `special_flag`. So `-s` is
  modelled only as setting that flag.
- SplitFacts.SplitEmits: characterises every non-empty line without a leading comma. Lines that start with a comma are covered only by the two worked examples, because there the cursor's lag makes the result depend on the exact layout of later empty pieces.
