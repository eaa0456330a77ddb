/**
 A model of `split_csv_line` (data_source.c): a line is cut on ',' into exactly
 `expected` fields with `strtok`, and a cursor `parsed` lets two consecutive
 commas yield an empty field. There is no quoting.

 `strtok` is modelled as the C library implements it: skip the commas at the
 saved position, take the longest run up to the next comma or terminator,
 overwrite that comma with the terminator and save the position after it. The
 buffer `strtok` writes into is the line itself, so the empty-field check reads
 the overwritten buffer and the model carries it along.
 */
module CsvSplit {
  import opened Optional

  /** The delimiter set `split_csv_line` hands to `strtok`. */
  const Comma: char := ','

  /** The terminator `strtok` writes over the comma that ends a token. */
  const Nul: char := '\0'

  /** The characters of a C string: no terminator before the end. */
  predicate NulFree(s: string) {
    forall i :: 0 <= i < |s| ==> s[i] != Nul
  }

  /** The state `strtok` keeps between calls: the buffer it writes into and
      the position it saved for the next call. */
  datatype Scanner = Scanner(buf: string, save: nat)

  /** One `strtok` call: the token (None for NULL) and the scanner afterwards. */
  datatype Step = Step(token: Option<string>, scanner: Scanner)

  /** `p + strspn(buf + p, ",")`: the first position at or after `p` that does
      not hold a comma. */
  function SkipCommas(buf: string, p: nat): (q: nat)
    requires p <= |buf|
    ensures p <= q <= |buf|
    ensures forall i :: p <= i < q ==> buf[i] == Comma
    ensures q == |buf| || buf[q] != Comma
    decreases |buf| - p
  {
    if p < |buf| && buf[p] == Comma then SkipCommas(buf, p + 1) else p
  }

  /** `p + strcspn(buf + p, ",")`: the end of the run starting at `p`, i.e. the
      first comma or terminator at or after `p`. */
  function RunEnd(buf: string, p: nat): (e: nat)
    requires p <= |buf|
    ensures p <= e <= |buf|
    ensures forall i :: p <= i < e ==> buf[i] != Comma && buf[i] != Nul
    ensures e == |buf| || buf[e] == Comma || buf[e] == Nul
    decreases |buf| - p
  {
    if p < |buf| && buf[p] != Comma && buf[p] != Nul then RunEnd(buf, p + 1) else p
  }

  /** `strtok(NULL, ",")` continuing from `sc` (the first call, `strtok(line, ",")`,
      is this with the save position at 0). A token is never empty and holds no
      comma; the buffer keeps its length and changes at most at the one position
      before the new save position. */
  function Strtok(sc: Scanner): (r: Step)
    requires sc.save <= |sc.buf|
    ensures |r.scanner.buf| == |sc.buf|
    ensures sc.save <= r.scanner.save <= |r.scanner.buf|
    ensures r.token.Some? ==> r.token.value != [] && Comma !in r.token.value
    ensures forall i :: 0 <= i < |sc.buf| && i + 1 != r.scanner.save ==> r.scanner.buf[i] == sc.buf[i]
  {
    var q := SkipCommas(sc.buf, sc.save);
    if q == |sc.buf| || sc.buf[q] == Nul then
      Step(None, Scanner(sc.buf, q))
    else
      var e := RunEnd(sc.buf, q);
      var token := sc.buf[q..e];
      assert forall i :: 0 <= i < |token| ==> token[i] == sc.buf[q + i];
      if e == |sc.buf| || sc.buf[e] == Nul then
        Step(Some(token), Scanner(sc.buf, e))
      else
        Step(Some(token), Scanner(sc.buf[e := Nul], e + 1))
  }

  /** The `for` loop of `split_csv_line` from iteration `index` on. `token` is the
      token in hand (None for NULL), `parsed` the cursor, `sc` the `strtok`
      state, `fields` the fields copied so far. The line length the loop compares
      against is `|sc.buf|`: `strtok` never changes the buffer's length.

      Each iteration copies the token, advances `parsed` past it and one
      delimiter, and then takes an empty token when the buffer holds a comma at
      `parsed`, or asks `strtok` for the next one otherwise. Running out of
      tokens before `expected` fields fails, and so does a token left over
      after them. */
  function SplitFields(expected: nat, index: nat, token: Option<string>, parsed: nat,
                       sc: Scanner, fields: seq<string>): (r: Option<seq<string>>)
    requires index <= expected && |fields| == index
    requires sc.save <= |sc.buf|
    requires token.Some? ==> Comma !in token.value
    requires forall k :: 0 <= k < |fields| ==> Comma !in fields[k]
    ensures r.Some? ==> |r.value| == expected && r.value[..index] == fields
    ensures r.Some? ==> forall k :: 0 <= k < expected ==> Comma !in r.value[k]
    decreases expected - index
  {
    if index == expected then
      if token.Some? then None else Some(fields)
    else if token.None? then
      None
    else
      var parsed' := parsed + |token.value| + 1;
      var fields' := fields + [token.value];
      if |sc.buf| > parsed' && sc.buf[parsed'] == Comma then
        SplitFields(expected, index + 1, Some(""), parsed', sc, fields')
      else
        var next := Strtok(sc);
        SplitFields(expected, index + 1, next.token, parsed', next.scanner, fields')
  }

  /** `split_csv_line(line, expected)`: None where the C function returns NULL
      for a wrong field count. On success there are exactly `expected` fields
      and none of them holds a comma. The line is the content of a C string,
      so it holds no terminator: `|line|` is its `strlen`. */
  function SplitCsvLine(line: string, expected: nat): (r: Option<seq<string>>)
    requires NulFree(line)
    ensures r.Some? ==> |r.value| == expected
    ensures r.Some? ==> forall k :: 0 <= k < expected ==> Comma !in r.value[k]
  {
    var first := Strtok(Scanner(line, 0));
    SplitFields(expected, 0, first.token, 0, first.scanner, [])
  }
}
