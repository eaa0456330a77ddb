/**
 `parse_args` (parse_args.c) as a fold over the options `getopt` reports, in
 order, followed by the check for the two positional paths. How `getopt`
 scans and permutes the argument vector, and how `sscanf` reads the text of a
 `-c` argument, are not modelled: an option arrives as an `OptEvent`, and a
 `-c` argument as the outcome of its `"%d-%d"` conversion.
 */
module Args {
  import opened Optional

  /** Room in `filters.waste_types`: at most eight one-character codes. */
  const MaxWasteTypes: nat := 8

  /** What `sscanf(optarg, "%d-%d", &min, &max)` stored: both numbers, only
      the first (the second conversion failed), or nothing. */
  datatype CapacityScan = BothRead(min: int, max: int) | MinRead(min: int) | NothingRead

  /** One option as `getopt(argc, argv, "t:c:p:s")` reports it. `UnknownOpt`
      stands for its '?' result: an unknown option or a missing argument. */
  datatype OptEvent =
    | TypeOpt(arg: string)
    | CapacityOpt(scan: CapacityScan)
    | PublicOpt(arg: string)
    | SpecialOpt
    | UnknownOpt

  /** The `Filters` struct; `waste_type_count` is the length of `wasteTypes`. */
  datatype Filters = Filters(wasteTypes: seq<char>, capacityMin: int, capacityMax: int,
                             publicFilter: int, specialFlag: int,
                             containersPath: string, pathsPath: string)

  /** The initializer at the top of `parse_args`: no codes, every number zero
      (the two paths are still NULL there and are set before any return). */
  const Initial: Filters := Filters([], 0, 0, 0, 0, "", "")

  /** The first `n` elements of `s`, or all of it when shorter. */
  function Take<T>(s: seq<T>, n: nat): (r: seq<T>)
    ensures |r| <= n && |r| <= |s| && r == s[..|r|]
    ensures |s| <= n ==> r == s
  {
    if |s| <= n then s else s[..n]
  }

  /** The `-t` loop: append the argument's characters one by one while the
      code count is below eight. */
  function AppendCodes(codes: seq<char>, arg: string): (r: seq<char>)
    ensures |codes| <= |r| <= |codes| + |arg| && r[..|codes|] == codes
    ensures |codes| <= MaxWasteTypes ==> |r| <= MaxWasteTypes
    ensures |codes| >= MaxWasteTypes ==> r == codes
    ensures forall k :: |codes| <= k < |r| ==> r[k] == arg[k - |codes|]
    decreases |arg|
  {
    if |arg| == 0 || |codes| >= MaxWasteTypes then codes
    else
      var r := AppendCodes(codes + [arg[0]], arg[1..]);
      assert r[..|codes|] == r[..|codes| + 1][..|codes|];
      r
  }

  /** One turn of the `switch`: None where `parse_args` exits with failure,
      which is exactly for a rejected option. Each option changes only its own
      fields. */
  function Apply(f: Filters, e: OptEvent): (r: Option<Filters>)
    ensures r.Some? <==> Accepted(e)
    ensures r.Some? ==> r.value.containersPath == f.containersPath && r.value.pathsPath == f.pathsPath
    ensures r.Some? && !e.TypeOpt? ==> r.value.wasteTypes == f.wasteTypes
    ensures r.Some? && !e.CapacityOpt? ==> r.value.capacityMin == f.capacityMin && r.value.capacityMax == f.capacityMax
    ensures r.Some? && !e.PublicOpt? ==> r.value.publicFilter == f.publicFilter
    ensures r.Some? && !e.SpecialOpt? ==> r.value.specialFlag == f.specialFlag
  {
    match e
    case TypeOpt(arg) => Some(f.(wasteTypes := AppendCodes(f.wasteTypes, arg)))
    case CapacityOpt(scan) =>
      Some(match scan
           case BothRead(m, n) => f.(capacityMin := m, capacityMax := n)
           case MinRead(m) => f.(capacityMin := m)
           case NothingRead => f)
    case PublicOpt(arg) =>
      if |arg| > 0 && arg[0] == 'N' then Some(f.(publicFilter := 1))
      else if |arg| > 0 && arg[0] == 'Y' then Some(f.(publicFilter := -1))
      else None
    case SpecialOpt => Some(f.(specialFlag := 1))
    case UnknownOpt => None
  }

  /** The `while (getopt …)` loop over `events`: it fails exactly when some
      option is rejected, leaves the paths unset and never holds more than
      eight codes. */
  function ApplyAll(events: seq<OptEvent>): (r: Option<Filters>)
    ensures r.Some? <==> forall i :: 0 <= i < |events| ==> Accepted(events[i])
    ensures r.Some? ==> r.value.containersPath == "" && r.value.pathsPath == ""
    ensures r.Some? ==> |r.value.wasteTypes| <= MaxWasteTypes
  {
    if |events| == 0 then Some(Initial)
    else
      var n := |events| - 1;
      assert forall i :: 0 <= i < n ==> events[..n][i] == events[i];
      match ApplyAll(events[..n])
      case None => None
      case Some(f) => Apply(f, events[n])
  }

  /** An option `parse_args` does not reject: a known one, and for `-p` an
      argument starting with 'N' or 'Y'. */
  predicate Accepted(e: OptEvent) {
    match e
    case UnknownOpt => false
    case PublicOpt(arg) => |arg| > 0 && (arg[0] == 'N' || arg[0] == 'Y')
    case _ => true
  }

  /** The characters of all `-t` arguments, in order. */
  function TypeChars(events: seq<OptEvent>): string
  {
    if |events| == 0 then []
    else
      var e := events[|events| - 1];
      TypeChars(events[..|events| - 1]) + (if e.TypeOpt? then e.arg else [])
  }

  /** The public filter the last `-p` chose (N gives 1, Y gives -1), or 0. */
  function LastPublic(events: seq<OptEvent>): int
  {
    if |events| == 0 then 0
    else
      var e := events[|events| - 1];
      if e.PublicOpt? && |e.arg| > 0 then (if e.arg[0] == 'N' then 1 else -1)
      else LastPublic(events[..|events| - 1])
  }

  /** The lower capacity bound the last `-c` that converted one stored, or 0. */
  function LastMin(events: seq<OptEvent>): int
  {
    if |events| == 0 then 0
    else
      var e := events[|events| - 1];
      if e.CapacityOpt? && !e.scan.NothingRead? then e.scan.min
      else LastMin(events[..|events| - 1])
  }

  /** The upper capacity bound the last `-c` that converted both stored, or 0. */
  function LastMax(events: seq<OptEvent>): int
  {
    if |events| == 0 then 0
    else
      var e := events[|events| - 1];
      if e.CapacityOpt? && e.scan.BothRead? then e.scan.max
      else LastMax(events[..|events| - 1])
  }

  /** Appending while below eight is taking the first eight of the whole. */
  lemma {:induction false} AppendCodesTakes(codes: seq<char>, arg: string)
    requires |codes| <= MaxWasteTypes
    ensures AppendCodes(codes, arg) == Take(codes + arg, MaxWasteTypes)
    decreases |arg|
  {
    if |arg| > 0 && |codes| < MaxWasteTypes {
      AppendCodesTakes(codes + [arg[0]], arg[1..]);
      assert codes + [arg[0]] + arg[1..] == codes + arg;
    } else if |arg| > 0 {
      assert (codes + arg)[..MaxWasteTypes] == codes;
    } else {
      assert codes + arg == codes;
    }
  }

  /** Truncating before more characters arrive changes nothing once the
      result is truncated again. */
  lemma TakeTwice(x: seq<char>, y: seq<char>)
    ensures Take(Take(x, MaxWasteTypes) + y, MaxWasteTypes) == Take(x + y, MaxWasteTypes)
  {
    if |x| > MaxWasteTypes {
      assert (x[..MaxWasteTypes] + y)[..MaxWasteTypes] == (x + y)[..MaxWasteTypes];
    }
  }

  /** The option loop field by field: it fails exactly when some option is
      rejected, and otherwise each field holds what its options made of it. */
  lemma {:induction false} ApplyAllFields(events: seq<OptEvent>)
    ensures ApplyAll(events).Some? <==> forall i :: 0 <= i < |events| ==> Accepted(events[i])
    ensures ApplyAll(events).Some? ==>
              var f := ApplyAll(events).value;
              && f.wasteTypes == Take(TypeChars(events), MaxWasteTypes)
              && f.capacityMin == LastMin(events)
              && f.capacityMax == LastMax(events)
              && f.publicFilter == LastPublic(events)
              && f.specialFlag == (if exists i :: 0 <= i < |events| && events[i].SpecialOpt? then 1 else 0)
              && f.containersPath == "" && f.pathsPath == ""
    decreases |events|
  {
    if |events| > 0 {
      var n := |events| - 1;
      var front := events[..n];
      var e := events[n];
      ApplyAllFields(front);
      assert forall i :: 0 <= i < n ==> front[i] == events[i];
      if ApplyAll(front).Some? {
        var f := ApplyAll(front).value;
        if e.TypeOpt? {
          AppendCodesTakes(f.wasteTypes, e.arg);
          TakeTwice(TypeChars(front), e.arg);
          assert TypeChars(events) == TypeChars(front) + e.arg;
        }
        if e.SpecialOpt? {
          assert events[n].SpecialOpt?;
        }
      }
    }
  }

  /** `parse_args`: None where it exits with failure, which happens exactly
      when an option is rejected or fewer than two positional arguments
      follow the options. Otherwise the codes are the first eight characters
      of all `-t` arguments, the bounds come from the last `-c`, the public
      filter from the last `-p` (0 without one), the special flag is 1 iff
      `-s` was given, and the two paths are the first two positionals. */
  function ParseArgs(events: seq<OptEvent>, positionals: seq<string>): (r: Option<Filters>)
    ensures r.Some? <==> (forall i :: 0 <= i < |events| ==> Accepted(events[i])) && |positionals| >= 2
    ensures r.Some? ==>
              && r.value.wasteTypes == Take(TypeChars(events), MaxWasteTypes)
              && r.value.capacityMin == LastMin(events)
              && r.value.capacityMax == LastMax(events)
              && r.value.publicFilter == LastPublic(events)
              && r.value.specialFlag == (if exists i :: 0 <= i < |events| && events[i].SpecialOpt? then 1 else 0)
              && r.value.containersPath == positionals[0]
              && r.value.pathsPath == positionals[1]
  {
    ApplyAllFields(events);
    match ApplyAll(events)
    case None => None
    case Some(f) =>
      if |positionals| < 2 then None
      else Some(f.(containersPath := positionals[0], pathsPath := positionals[1]))
  }
}
