/**
 What `split_csv_line` computes, stated against the plain comma split of the
 line: every maximal comma-free piece, empty ones included.

 For a line that neither starts nor ends with a comma the two agree exactly. A
 line ending in a comma loses its last (empty) piece: the empty-field check of
 the C loop needs the cursor to lie strictly inside the line. A leading comma
 is swallowed by `strtok`, and the cursor then lags the real position by one.
 */
module SplitFacts {
  import opened Optional
  import opened CsvSplit

  /** The first comma at or after `p`, or the end of `s`. */
  function NextComma(s: string, p: nat): (e: nat)
    requires p <= |s|
    ensures p <= e <= |s|
    ensures e == |s| || s[e] == Comma
    ensures forall i :: p <= i < e ==> s[i] != Comma
    decreases |s| - p
  {
    if p == |s| || s[p] == Comma then p else NextComma(s, p + 1)
  }

  /** The plain comma split of `s[p..]`. */
  function PiecesFrom(s: string, p: nat): (ps: seq<string>)
    requires p <= |s|
    ensures |ps| >= 1
    decreases |s| - p
  {
    var e := NextComma(s, p);
    if e == |s| then [s[p..]] else [s[p..e]] + PiecesFrom(s, e + 1)
  }

  /** The plain comma split of a whole line. */
  function Pieces(s: string): (ps: seq<string>)
    ensures |ps| >= 1
  {
    PiecesFrom(s, 0)
  }

  /** Pieces glued back together with one comma between neighbours. */
  function Join(ps: seq<string>): string
    requires |ps| >= 1
  {
    if |ps| == 1 then ps[0] else ps[0] + [Comma] + Join(ps[1..])
  }

  /** The pieces `split_csv_line` hands out from a piece starting at `p`: the
      plain split, without an empty piece at the very end of the line. */
  function EmittedFrom(s: string, p: nat): (ps: seq<string>)
    requires p < |s|
    ensures |ps| >= 1
    decreases |s| - p
  {
    var e := NextComma(s, p);
    if e + 1 >= |s| then [s[p..e]] else [s[p..e]] + EmittedFrom(s, e + 1)
  }

  /** The plain split is a faithful reference: its pieces hold no comma and
      joining them with commas gives back the line. */
  lemma {:induction false} PiecesJoinFrom(s: string, p: nat)
    requires p <= |s|
    ensures Join(PiecesFrom(s, p)) == s[p..]
    ensures forall k :: 0 <= k < |PiecesFrom(s, p)| ==> Comma !in PiecesFrom(s, p)[k]
    decreases |s| - p
  {
    var e := NextComma(s, p);
    assert Comma !in s[p..e] by {
      forall i | 0 <= i < e - p ensures s[p..e][i] != Comma {
        assert s[p..e][i] == s[p + i];
      }
    }
    if e < |s| {
      PiecesJoinFrom(s, e + 1);
      var ps := PiecesFrom(s, p);
      assert ps == [s[p..e]] + PiecesFrom(s, e + 1);
      assert ps[1..] == PiecesFrom(s, e + 1);
      assert s[p..] == s[p..e] + [Comma] + s[e + 1..];
    }
  }

  /** Without a trailing comma, what is emitted is the whole plain split. */
  lemma {:induction false} EmittedPlain(s: string, p: nat)
    requires p < |s| && s[|s| - 1] != Comma
    ensures EmittedFrom(s, p) == PiecesFrom(s, p)
    decreases |s| - p
  {
    var e := NextComma(s, p);
    if e + 1 < |s| {
      EmittedPlain(s, e + 1);
    } else {
      assert e == |s|;
      assert s[p..e] == s[p..];
    }
  }

  /** With a trailing comma, what is emitted is the plain split minus its
      final, empty piece. */
  lemma {:induction false} EmittedTrailing(s: string, p: nat)
    requires p < |s| && s[|s| - 1] == Comma
    ensures var ps := PiecesFrom(s, p); EmittedFrom(s, p) == ps[..|ps| - 1]
    decreases |s| - p
  {
    var e := NextComma(s, p);
    if e + 1 < |s| {
      EmittedTrailing(s, e + 1);
      var rest := PiecesFrom(s, e + 1);
      assert PiecesFrom(s, p) == [s[p..e]] + rest;
      assert ([s[p..e]] + rest)[..|rest|] == [s[p..e]] + rest[..|rest| - 1];
    } else {
      assert e + 1 == |s|;
      assert s[e + 1..] == "";
      assert PiecesFrom(s, e + 1) == [""];
    }
  }

  /** SkipCommas stops at `b` when everything from `a` up to `b` is a comma
      and `b` is not. */
  lemma {:induction false} SkipCommasTo(buf: string, a: nat, b: nat)
    requires a <= b <= |buf|
    requires forall i :: a <= i < b ==> buf[i] == Comma
    requires b == |buf| || buf[b] != Comma
    ensures SkipCommas(buf, a) == b
    decreases b - a
  {
    if a < b {
      SkipCommasTo(buf, a + 1, b);
    }
  }

  /** On a stretch where the buffer still equals a NUL-free line, strtok's run
      ends at the line's next comma. */
  lemma {:induction false} RunEndIsNextComma(buf: string, line: string, p: nat)
    requires |buf| == |line| && p <= |line| && NulFree(line)
    requires forall i :: p <= i < |line| ==> buf[i] == line[i]
    ensures RunEnd(buf, p) == NextComma(line, p)
    decreases |line| - p
  {
    if p < |line| && line[p] != Comma {
      RunEndIsNextComma(buf, line, p + 1);
    }
  }

  /** The state of the C loop when it holds the piece of `line` starting at
      `p` as its token: the cursor is at `p`; the buffer still equals the line
      from the save position on; everything between the save position and the
      start of the next piece is a comma; and a non-empty token was produced by
      strtok, so the save position is past it. */
  ghost predicate AtPiece(line: string, p: nat, token: Option<string>, parsed: nat, sc: Scanner)
  {
    && p < |line|
    && var e := NextComma(line, p);
    && token == Some(line[p..e])
    && parsed == p
    && |sc.buf| == |line|
    && sc.save <= |line| && sc.save <= e + 1
    && (p < e ==> e <= sc.save)
    && (forall i :: sc.save <= i < |line| ==> sc.buf[i] == line[i])
    && (forall i :: sc.save <= i <= e && i < |line| ==> line[i] == Comma)
  }

  /** After the last emitted piece only commas are left for strtok, so it
      returns NULL. */
  lemma LastPieceEnds(line: string, p: nat, token: Option<string>, parsed: nat, sc: Scanner)
    requires AtPiece(line, p, token, parsed, sc)
    requires NextComma(line, p) + 1 >= |line|
    ensures Strtok(sc).token.None?
  {
    SkipCommasTo(sc.buf, sc.save, |line|);
  }

  /** A comma right after the next delimiter: the C loop takes an empty token
      without calling strtok, and the state is at the next (empty) piece. */
  lemma EmptyPieceNext(line: string, p: nat, token: Option<string>, parsed: nat, sc: Scanner)
    requires AtPiece(line, p, token, parsed, sc)
    requires NextComma(line, p) + 1 < |line|
    requires line[NextComma(line, p) + 1] == Comma
    ensures var next := NextComma(line, p) + 1;
            sc.buf[next] == Comma && AtPiece(line, next, Some(""), next, sc)
  {
    var next := NextComma(line, p) + 1;
    assert NextComma(line, next) == next && line[next..next] == "";
  }

  /** A non-comma right after the next delimiter: the C loop asks strtok, which
      returns exactly the next piece, and the state is at that piece. */
  lemma TokenPieceNext(line: string, p: nat, token: Option<string>, parsed: nat, sc: Scanner)
    requires NulFree(line)
    requires AtPiece(line, p, token, parsed, sc)
    requires NextComma(line, p) + 1 < |line|
    requires line[NextComma(line, p) + 1] != Comma
    ensures var next := NextComma(line, p) + 1;
            var step := Strtok(sc);
            sc.buf[next] != Comma && AtPiece(line, next, step.token, next, step.scanner)
  {
    var next := NextComma(line, p) + 1;
    var e' := NextComma(line, next);
    SkipCommasTo(sc.buf, sc.save, next);
    RunEndIsNextComma(sc.buf, line, next);
    assert sc.buf[next..e'] == line[next..e'];
  }

  /** The precondition shared by the loop lemmas: the arguments of
      SplitFields are well formed and the loop holds the piece at `p`. */
  ghost predicate LoopAt(line: string, expected: nat, index: nat, token: Option<string>,
                         parsed: nat, sc: Scanner, fields: seq<string>, p: nat)
  {
    && NulFree(line)
    && index <= expected && |fields| == index
    && sc.save <= |sc.buf|
    && (token.Some? ==> Comma !in token.value)
    && (forall k :: 0 <= k < |fields| ==> Comma !in fields[k])
    && AtPiece(line, p, token, parsed, sc)
  }

  /** What the loop returns from the piece at `p` on. */
  ghost predicate EmitsRest(line: string, expected: nat, index: nat, token: Option<string>,
                            parsed: nat, sc: Scanner, fields: seq<string>, p: nat)
    requires LoopAt(line, expected, index, token, parsed, sc, fields, p)
  {
    SplitFields(expected, index, token, parsed, sc, fields)
    == if |EmittedFrom(line, p)| == expected - index
       then Some(fields + EmittedFrom(line, p)) else None
  }

  /** The invariant of the C loop, carried to its end. */
  lemma {:induction false} LoopEmits(line: string, expected: nat, index: nat, token: Option<string>,
                                     parsed: nat, sc: Scanner, fields: seq<string>, p: nat)
    requires LoopAt(line, expected, index, token, parsed, sc, fields, p)
    ensures EmitsRest(line, expected, index, token, parsed, sc, fields, p)
    decreases expected - index, 1
  {
    if index < expected {
      var next := NextComma(line, p) + 1;
      if next >= |line| {
        LastPieceEnds(line, p, token, parsed, sc);
      } else if line[next] == Comma {
        LoopEmitsEmpty(line, expected, index, token, parsed, sc, fields, p);
      } else {
        LoopEmitsToken(line, expected, index, token, parsed, sc, fields, p);
      }
    }
  }

  /** One turn of the loop that takes an empty token, then the rest. */
  lemma {:induction false} LoopEmitsEmpty(line: string, expected: nat, index: nat, token: Option<string>,
                                          parsed: nat, sc: Scanner, fields: seq<string>, p: nat)
    requires LoopAt(line, expected, index, token, parsed, sc, fields, p)
    requires index < expected
    requires NextComma(line, p) + 1 < |line| && line[NextComma(line, p) + 1] == Comma
    ensures EmitsRest(line, expected, index, token, parsed, sc, fields, p)
    decreases expected - index, 0
  {
    var e := NextComma(line, p);
    var next := e + 1;
    var piece := line[p..e];
    var fields' := fields + [piece];
    var rest := EmittedFrom(line, next);
    assert EmittedFrom(line, p) == [piece] + rest;
    assert fields' + rest == fields + ([piece] + rest);
    EmptyPieceNext(line, p, token, parsed, sc);
    assert token == Some(piece) && parsed + |piece| + 1 == next && sc.buf[next] == Comma;
    assert SplitFields(expected, index, token, parsed, sc, fields)
           == SplitFields(expected, index + 1, Some(""), next, sc, fields');
    LoopEmits(line, expected, index + 1, Some(""), next, sc, fields', next);
  }

  /** One turn of the loop that asks strtok for the next token, then the rest. */
  lemma {:induction false} LoopEmitsToken(line: string, expected: nat, index: nat, token: Option<string>,
                                          parsed: nat, sc: Scanner, fields: seq<string>, p: nat)
    requires LoopAt(line, expected, index, token, parsed, sc, fields, p)
    requires index < expected
    requires NextComma(line, p) + 1 < |line| && line[NextComma(line, p) + 1] != Comma
    ensures EmitsRest(line, expected, index, token, parsed, sc, fields, p)
    decreases expected - index, 0
  {
    var e := NextComma(line, p);
    var next := e + 1;
    var piece := line[p..e];
    var fields' := fields + [piece];
    var rest := EmittedFrom(line, next);
    assert EmittedFrom(line, p) == [piece] + rest;
    assert fields' + rest == fields + ([piece] + rest);
    TokenPieceNext(line, p, token, parsed, sc);
    var step := Strtok(sc);
    assert token == Some(piece) && parsed + |piece| + 1 == next && sc.buf[next] != Comma;
    assert SplitFields(expected, index, token, parsed, sc, fields)
           == SplitFields(expected, index + 1, step.token, next, step.scanner, fields');
    LoopEmits(line, expected, index + 1, step.token, next, step.scanner, fields', next);
  }

  /** For a non-empty line without a leading comma, `split_csv_line` succeeds
      exactly when the emitted pieces number `expected`, and returns them. */
  lemma SplitEmits(line: string, expected: nat)
    requires NulFree(line) && |line| > 0 && line[0] != Comma
    ensures SplitCsvLine(line, expected)
            == if |EmittedFrom(line, 0)| == expected then Some(EmittedFrom(line, 0)) else None
  {
    SkipCommasTo(line, 0, 0);
    RunEndIsNextComma(line, line, 0);
    var first := Strtok(Scanner(line, 0));
    var e := NextComma(line, 0);
    assert first.token == Some(line[0..e]);
    LoopEmits(line, expected, 0, first.token, 0, first.scanner, [], 0);
  }

  /** A line with no leading and no trailing comma splits into exactly its
      plain comma pieces, empty ones between consecutive commas included, and
      fails for any other expected count. */
  lemma SplitPlainLine(line: string, expected: nat)
    requires NulFree(line) && |line| > 0
    requires line[0] != Comma && line[|line| - 1] != Comma
    ensures SplitCsvLine(line, expected)
            == if |Pieces(line)| == expected then Some(Pieces(line)) else None
  {
    SplitEmits(line, expected);
    EmittedPlain(line, 0);
  }

  /** A trailing comma contributes no empty field: the line splits into its
      plain pieces without the last one. */
  lemma SplitTrailingComma(line: string, expected: nat)
    requires NulFree(line) && |line| > 0
    requires line[0] != Comma && line[|line| - 1] == Comma
    ensures var ps := Pieces(line);
            SplitCsvLine(line, expected)
            == if |ps| - 1 == expected then Some(ps[..|ps| - 1]) else None
  {
    SplitEmits(line, expected);
    EmittedTrailing(line, 0);
  }

  /** A leading comma is swallowed by the first strtok call: ",a,b" gives the
      two fields "a" and "b", not an empty first field. */
  lemma LeadingCommaSwallowed()
    ensures SplitCsvLine(",a,b", 2) == Some(["a", "b"])
  {
    var line := ",a,b";
    assert SkipCommas(line, 0) == 1 by { assert SkipCommas(line, 1) == 1; }
    assert RunEnd(line, 1) == 2 by { assert RunEnd(line, 2) == 2; }
    assert line[1..2] == "a";
    var buf := line[2 := Nul];
    assert Strtok(Scanner(line, 0)) == Step(Some("a"), Scanner(buf, 3));
    assert SkipCommas(buf, 3) == 3;
    assert RunEnd(buf, 3) == 4 by { assert RunEnd(buf, 4) == 4; }
    assert buf[3..4] == "b";
    assert Strtok(Scanner(buf, 3)) == Step(Some("b"), Scanner(buf, 4));
    assert Strtok(Scanner(buf, 4)).token == None;
    assert ["a"] + ["b"] == ["a", "b"];
    assert SplitFields(2, 1, Some("b"), 2, Scanner(buf, 4), ["a"]) == Some(["a", "b"]);
    assert buf[2] == Nul && [] + ["a"] == ["a"];
    assert SplitFields(2, 0, Some("a"), 0, Scanner(buf, 3), []) == Some(["a", "b"]);
  }

  /** After leading commas the cursor lags the real position, so the
      empty-field check fires at the wrong place: ",,a,,b" gives "a", "b" and
      a trailing empty field, although the empty piece lies between "a" and
      "b". */
  lemma LeadingCommasShiftEmptyField()
    ensures SplitCsvLine(",,a,,b", 3) == Some(["a", "b", ""])
  {
    var line := ",,a,,b";
    assert SkipCommas(line, 0) == 2 by { assert SkipCommas(line, 2) == 2; }
    assert RunEnd(line, 2) == 3 by { assert RunEnd(line, 3) == 3; }
    assert line[2..3] == "a";
    var buf := line[3 := Nul];
    assert Strtok(Scanner(line, 0)) == Step(Some("a"), Scanner(buf, 4));
    assert SkipCommas(buf, 4) == 5 by { assert SkipCommas(buf, 5) == 5; }
    assert RunEnd(buf, 5) == 6 by { assert RunEnd(buf, 6) == 6; }
    assert buf[5..6] == "b";
    assert Strtok(Scanner(buf, 4)) == Step(Some("b"), Scanner(buf, 6));
    assert Strtok(Scanner(buf, 6)).token == None;
    assert ["a", "b"] + [""] == ["a", "b", ""];
    assert SplitFields(3, 2, Some(""), 4, Scanner(buf, 6), ["a", "b"]) == Some(["a", "b", ""]);
    assert buf[4] == Comma && ["a"] + ["b"] == ["a", "b"];
    assert SplitFields(3, 1, Some("b"), 2, Scanner(buf, 6), ["a"]) == Some(["a", "b", ""]);
    assert buf[2] != Comma && [] + ["a"] == ["a"];
    assert SplitFields(3, 0, Some("a"), 0, Scanner(buf, 4), []) == Some(["a", "b", ""]);
  }
}
