/** The two file readers of the solver window (ui_app.py:324-363): the
    coefficient matrix reader and the right-hand-side reader. A file is
    given as the sequence of its lines, in file order. */
module Readers {
  import opened Wrappers
  import opened Text
  import opened Numerals

  /** The `ValueError`s the matrix reader raises. */
  datatype MatrixError = MatrixNonNumeric | MatrixEmpty | MatrixNotSquare {
    function Message(): string {
      match this
      case MatrixNonNumeric => "Matrix file contains non-numeric values."
      case MatrixEmpty => "Matrix file is empty."
      case MatrixNotSquare => "Matrix must be square (same number of rows and columns)."
    }
  }

  /** The `ValueError`s the right-hand-side reader raises. */
  datatype VectorError = VectorNonNumeric | VectorLengthMismatch {
    function Message(): string {
      match this
      case VectorNonNumeric => "RHS file contains non-numeric values."
      case VectorLengthMismatch => "RHS vector length must match the matrix size."
    }
  }

  // ---------------------------------------------------------------------
  // Specification functions

  /** The stripped text of every non-blank line, in file order: the lines
      both readers act on, the others being skipped. */
  function Meaningful(lines: seq<string>): (r: seq<string>)
    ensures |r| <= |lines|
    ensures forall i :: 0 <= i < |r| ==> r[i] != []
  {
    if lines == [] then []
    else
      var last := Strip(lines[|lines| - 1]);
      Meaningful(lines[..|lines| - 1]) + (if last == [] then [] else [last])
  }

  /** The whitespace-separated tokens of a line. */
  function Tokens(line: string): seq<string> {
    Split(Strip(line))
  }

  /** `[float(t) for t in ts]`: all values, or `None` as soon as one token
      does not parse. */
  function ParseAll(ts: seq<string>): (r: Option<seq<real>>)
    ensures r.Some? ==> |r.value| == |ts|
    ensures r.Some? ==> forall i :: 0 <= i < |ts| ==> ParseNum(ts[i]) == Some(r.value[i])
    ensures (forall i :: 0 <= i < |ts| ==> ParseNum(ts[i]).Some?) ==> r.Some?
  {
    if ts == [] then Some([])
    else
      match ParseAll(ts[..|ts| - 1])
      case None => None
      case Some(vs) =>
        match ParseNum(ts[|ts| - 1])
        case None => None
        case Some(v) => Some(vs + [v])
  }

  /** The tokens of each stripped line. */
  function SplitEach(ms: seq<string>): (r: seq<seq<string>>)
    ensures |r| == |ms| && forall i :: 0 <= i < |ms| ==> r[i] == Split(ms[i])
  {
    seq(|ms|, i requires 0 <= i < |ms| => Split(ms[i]))
  }

  /** Every line's tokens parsed, in order, or `None` when some token of
      some line does not parse. */
  function ParseRows(tss: seq<seq<string>>): (r: Option<seq<seq<real>>>)
    ensures r.Some? ==> |r.value| == |tss|
    ensures r.Some? ==> forall i :: 0 <= i < |tss| ==> ParseAll(tss[i]) == Some(r.value[i])
    ensures (forall i :: 0 <= i < |tss| ==> ParseAll(tss[i]).Some?) ==> r.Some?
  {
    if tss == [] then Some([])
    else
      match ParseRows(tss[..|tss| - 1])
      case None => None
      case Some(rows) =>
        match ParseAll(tss[|tss| - 1])
        case None => None
        case Some(row) => Some(rows + [row])
  }

  /** `any(len(row) != size for row in rows)`. */
  predicate AnyRowNotOfLength(rows: seq<seq<real>>, size: int) {
    exists i :: 0 <= i < |rows| && |rows[i]| != size
  }

  /** What `_read_matrix` returns or raises for a file with these lines.
      A successful result is a square matrix of at least one row. */
  function MatrixFromLines(lines: seq<string>): (r: Result<seq<seq<real>>, MatrixError>)
    ensures r.Success? ==> |r.value| >= 1
    ensures r.Success? ==> forall i :: 0 <= i < |r.value| ==> |r.value[i]| == |r.value|
  {
    match ParseRows(SplitEach(Meaningful(lines)))
    case None => Failure(MatrixNonNumeric)
    case Some(rows) =>
      if rows == [] then Failure(MatrixEmpty)
      else if AnyRowNotOfLength(rows, |rows|) then Failure(MatrixNotSquare)
      else Success(rows)
  }

  /** What `_read_vector` returns or raises for a file with these lines.
      A successful result has exactly `expected` entries. */
  function VectorFromLines(lines: seq<string>, expected: int): (r: Result<seq<real>, VectorError>)
    ensures r.Success? ==> |r.value| == expected
  {
    match ParseAll(Meaningful(lines))
    case None => Failure(VectorNonNumeric)
    case Some(values) =>
      if |values| != expected then Failure(VectorLengthMismatch) else Success(values)
  }

  // ---------------------------------------------------------------------
  // The readers

  /** `_read_matrix`: reads the lines one by one, skipping blank ones and
      appending one parsed row per other line; a token that does not parse
      stops the reading. Then the emptiness and squareness checks. */
  method ReadMatrix(lines: seq<string>) returns (r: Result<seq<seq<real>>, MatrixError>)
    ensures r == MatrixFromLines(lines)
    ensures r.Success? ==> |r.value| >= 1
    ensures r.Success? ==> forall i :: 0 <= i < |r.value| ==> |r.value[i]| == |r.value|
  {
    var rows: seq<seq<real>> := [];
    ghost var seen: seq<string> := [];
    for i := 0 to |lines|
      invariant seen == Meaningful(lines[..i])
      invariant ParseRows(SplitEach(seen)) == Some(rows)
    {
      var stripped := Strip(lines[i]);
      MeaningfulSnoc(lines, i);
      if stripped == [] {
        continue;
      }
      var row := ParseAll(Split(stripped));
      MatrixLineStep(lines, i, seen);
      seen := seen + [stripped];
      if row.None? {
        ParseFailureSticks(lines, i + 1);
        return Failure(MatrixNonNumeric);
      }
      rows := rows + [row.value];
    }
    assert lines[..|lines|] == lines;
    if rows == [] {
      return Failure(MatrixEmpty);
    }
    var size := |rows|;
    if AnyRowNotOfLength(rows, size) {
      return Failure(MatrixNotSquare);
    }
    return Success(rows);
  }

  /** `_read_vector`: one number per non-blank line, the whole stripped line
      being parsed; then the length check against `expected`. */
  method ReadVector(lines: seq<string>, expected: int) returns (r: Result<seq<real>, VectorError>)
    ensures r == VectorFromLines(lines, expected)
    ensures r.Success? ==> |r.value| == expected
  {
    var values: seq<real> := [];
    ghost var seen: seq<string> := [];
    for i := 0 to |lines|
      invariant seen == Meaningful(lines[..i])
      invariant ParseAll(seen) == Some(values)
    {
      var stripped := Strip(lines[i]);
      MeaningfulSnoc(lines, i);
      if stripped == [] {
        continue;
      }
      var value := ParseNum(stripped);
      ParseAllSnoc(seen, stripped);
      seen := seen + [stripped];
      if value.None? {
        VectorFailureSticks(lines, i + 1);
        return Failure(VectorNonNumeric);
      }
      values := values + [value.value];
    }
    assert lines[..|lines|] == lines;
    if |values| != expected {
      return Failure(VectorLengthMismatch);
    }
    return Success(values);
  }

  // ---------------------------------------------------------------------
  // Helper facts for the loops

  lemma MeaningfulSnoc(lines: seq<string>, i: nat)
    requires i < |lines|
    ensures Meaningful(lines[..i + 1])
      == Meaningful(lines[..i]) + (if IsBlank(lines[i]) then [] else [Strip(lines[i])])
  {
    assert lines[..i + 1][..i] == lines[..i];
  }

  /** One non-blank line read by `ReadMatrix`: the stripped line joins
      the lines read so far, and its parse result joins the rows. */
  lemma MatrixLineStep(lines: seq<string>, i: nat, seen: seq<string>)
    requires i < |lines| && Strip(lines[i]) != [] && seen == Meaningful(lines[..i])
    ensures Meaningful(lines[..i + 1]) == seen + [Strip(lines[i])]
    ensures ParseRows(SplitEach(seen + [Strip(lines[i])])) ==
      match ParseRows(SplitEach(seen))
      case None => None
      case Some(rows) =>
        match ParseAll(Split(Strip(lines[i])))
        case None => None
        case Some(row) => Some(rows + [row])
  {
    var stripped := Strip(lines[i]);
    MeaningfulSnoc(lines, i);
    SplitEachAppend(seen, [stripped]);
    assert SplitEach(seen + [stripped]) == SplitEach(seen) + [Split(stripped)];
    ParseRowsSnoc(SplitEach(seen), Split(stripped));
  }

  lemma ParseRowsSnoc(tss: seq<seq<string>>, ts: seq<string>)
    ensures ParseRows(tss + [ts]) == match ParseRows(tss)
      case None => None
      case Some(rows) =>
        match ParseAll(ts)
        case None => None
        case Some(row) => Some(rows + [row])
  {
    assert (tss + [ts])[..|tss|] == tss;
  }

  lemma ParseAllSnoc(ts: seq<string>, t: string)
    ensures ParseAll(ts + [t]) == match ParseAll(ts)
      case None => None
      case Some(vs) =>
        match ParseNum(t)
        case None => None
        case Some(v) => Some(vs + [v])
  {
    assert (ts + [t])[..|ts|] == ts;
  }

  /** Once a prefix of the file fails to parse, the whole file does. */
  lemma ParseFailureSticks(lines: seq<string>, i: nat)
    requires i <= |lines| && ParseRows(SplitEach(Meaningful(lines[..i]))).None?
    ensures ParseRows(SplitEach(Meaningful(lines))).None?
  {
    MeaningfulSplitAt(lines, i);
    var a := SplitEach(Meaningful(lines[..i]));
    var b := SplitEach(Meaningful(lines[i..]));
    SplitEachAppend(Meaningful(lines[..i]), Meaningful(lines[i..]));
    ParseRowsPrefixFailure(a, b);
  }

  lemma SplitEachAppend(x: seq<string>, y: seq<string>)
    ensures SplitEach(x + y) == SplitEach(x) + SplitEach(y)
  {
    MapAppend(Split, x, y, SplitEach(x + y), SplitEach(x), SplitEach(y));
  }

  /** A sequence made by applying `f` to every element of `x + y` is the
      one made from `x` followed by the one made from `y`. */
  lemma MapAppend<T, U>(f: T -> U, x: seq<T>, y: seq<T>, l: seq<U>, a: seq<U>, b: seq<U>)
    requires |l| == |x + y| && (forall k :: 0 <= k < |l| ==> l[k] == f((x + y)[k]))
    requires |a| == |x| && (forall k :: 0 <= k < |a| ==> a[k] == f(x[k]))
    requires |b| == |y| && (forall k :: 0 <= k < |b| ==> b[k] == f(y[k]))
    ensures l == a + b
  {
    forall k | 0 <= k < |l| ensures l[k] == (a + b)[k] {
      if k < |x| {
        assert (x + y)[k] == x[k];
      } else {
        assert (x + y)[k] == y[k - |x|];
      }
    }
  }

  lemma VectorFailureSticks(lines: seq<string>, i: nat)
    requires i <= |lines| && ParseAll(Meaningful(lines[..i])).None?
    ensures ParseAll(Meaningful(lines)).None?
  {
    MeaningfulSplitAt(lines, i);
    ParseAllPrefixFailure(Meaningful(lines[..i]), Meaningful(lines[i..]));
  }

  lemma MeaningfulSplitAt(lines: seq<string>, i: nat)
    requires i <= |lines|
    ensures Meaningful(lines) == Meaningful(lines[..i]) + Meaningful(lines[i..])
  {
    assert lines == lines[..i] + lines[i..];
    MeaningfulAppend(lines[..i], lines[i..]);
  }

  lemma ParseAllPrefixFailure(a: seq<string>, b: seq<string>)
    requires ParseAll(a).None?
    ensures ParseAll(a + b).None?
  {
    var k :| 0 <= k < |a| && ParseNum(a[k]).None?;
    assert (a + b)[k] == a[k];
  }

  lemma ParseRowsPrefixFailure(a: seq<seq<string>>, b: seq<seq<string>>)
    requires ParseRows(a).None?
    ensures ParseRows(a + b).None?
  {
    var k :| 0 <= k < |a| && ParseAll(a[k]).None?;
    assert (a + b)[k] == a[k];
  }

  // ---------------------------------------------------------------------
  // Which lines become rows, and in which order

  /** Reading two pieces of a file one after the other gives the lines of
      the first piece, then those of the second: file order is kept. */
  lemma {:induction false} MeaningfulAppend(a: seq<string>, b: seq<string>)
    ensures Meaningful(a + b) == Meaningful(a) + Meaningful(b)
    decreases |b|
  {
    if b == [] {
      assert a + b == a;
    } else {
      var p := b[..|b| - 1];
      assert (a + b)[..|a + b| - 1] == a + p;
      assert (a + b)[|a + b| - 1] == b[|b| - 1];
      MeaningfulAppend(a, p);
    }
  }

  /** A non-blank line at position `k` is the `c`-th meaningful line, where
      `c` counts the non-blank lines before it. */
  lemma MeaningfulAt(lines: seq<string>, k: nat)
    requires k < |lines| && !IsBlank(lines[k])
    ensures |Meaningful(lines[..k])| < |Meaningful(lines)|
    ensures Meaningful(lines)[|Meaningful(lines[..k])|] == Strip(lines[k])
  {
    assert lines == lines[..k + 1] + lines[k + 1..];
    MeaningfulAppend(lines[..k + 1], lines[k + 1..]);
    MeaningfulSnoc(lines, k);
  }

  /** Every meaningful line is the stripped text of a non-blank line. */
  lemma {:induction false} MeaningfulFrom(lines: seq<string>, i: nat)
    requires i < |Meaningful(lines)|
    ensures exists k :: 0 <= k < |lines| && !IsBlank(lines[k]) && Meaningful(lines)[i] == Strip(lines[k])
    decreases |lines|
  {
    var n := |lines| - 1;
    var p := lines[..n];
    MeaningfulSnoc(lines, n);
    assert lines[..n + 1] == lines;
    var tail := if IsBlank(lines[n]) then [] else [Strip(lines[n])];
    assert Meaningful(lines) == Meaningful(p) + tail;
    if i < |Meaningful(p)| {
      MeaningfulFrom(p, i);
      var k :| 0 <= k < |p| && !IsBlank(p[k]) && Meaningful(p)[i] == Strip(p[k]);
      assert Meaningful(lines)[i] == Meaningful(p)[i];
      assert lines[k] == p[k];
    } else {
      assert tail != [] && Meaningful(lines)[i] == tail[0];
      assert 0 <= n < |lines| && !IsBlank(lines[n]) && Meaningful(lines)[i] == Strip(lines[n]);
    }
  }

  /** A lone blank line is dropped without a trace. */
  lemma MeaningfulDropBlank(lines: seq<string>, k: nat)
    requires k < |lines| && IsBlank(lines[k])
    ensures Meaningful(lines) == Meaningful(lines[..k] + lines[k + 1..])
  {
    var front, back := lines[..k], lines[k + 1..];
    assert lines == lines[..k + 1] + back;
    MeaningfulAppend(lines[..k + 1], back);
    MeaningfulAppend(front, back);
    MeaningfulSnoc(lines, k);
    assert Meaningful(lines[..k + 1]) == Meaningful(front);
  }

  /** No meaningful line remains exactly when every line is blank. */
  lemma MeaningfulEmptyIffAllBlank(lines: seq<string>)
    ensures Meaningful(lines) == [] <==> forall k :: 0 <= k < |lines| ==> IsBlank(lines[k])
  {
    if Meaningful(lines) == [] {
      forall k | 0 <= k < |lines| ensures IsBlank(lines[k]) {
        if !IsBlank(lines[k]) {
          MeaningfulAt(lines, k);
        }
      }
    } else {
      MeaningfulFrom(lines, 0);
    }
  }

  // ---------------------------------------------------------------------
  // What the matrix reader promises, line by line

  /** Some non-blank line holds a token that is not a number. */
  predicate HasBadToken(lines: seq<string>) {
    exists k, j :: 0 <= k < |lines| && !IsBlank(lines[k]) && 0 <= j < |Tokens(lines[k])|
      && ParseNum(Tokens(lines[k])[j]).None?
  }

  /** Every line is blank. */
  predicate AllBlank(lines: seq<string>) {
    forall k :: 0 <= k < |lines| ==> IsBlank(lines[k])
  }

  /** A whitespace-only line never produces a row: the outcome is the same
      with that line removed. */
  lemma MatrixBlankLineIgnored(lines: seq<string>, k: nat)
    requires k < |lines| && IsBlank(lines[k])
    ensures MatrixFromLines(lines) == MatrixFromLines(lines[..k] + lines[k + 1..])
  {
    MeaningfulDropBlank(lines, k);
  }

  /** There is one row per non-blank line, and the non-blank line at `k`
      becomes row `c`, where `c` counts the non-blank lines before it; the
      entries of that row are the line's tokens, parsed, in order. */
  lemma MatrixRowOfLine(lines: seq<string>, k: nat)
    requires k < |lines| && !IsBlank(lines[k]) && MatrixFromLines(lines).Success?
    ensures |MatrixFromLines(lines).value| == |Meaningful(lines)|
    ensures var rows := MatrixFromLines(lines).value; var c := |Meaningful(lines[..k])|;
      c < |rows| && |rows[c]| == |Tokens(lines[k])|
      && forall j :: 0 <= j < |rows[c]| ==> ParseNum(Tokens(lines[k])[j]) == Some(rows[c][j])
  {
    MeaningfulAt(lines, k);
  }

  /** The non-numeric error is reported exactly when some token of some
      non-blank line does not parse, whatever the shape of the rest. */
  lemma MatrixNonNumericIff(lines: seq<string>)
    ensures MatrixFromLines(lines) == Failure(MatrixNonNumeric) <==> HasBadToken(lines)
  {
    BadTokenOfFailure(lines);
    FailureOfBadToken(lines);
  }

  /** A failed parse has a bad token on some non-blank line. */
  lemma BadTokenOfFailure(lines: seq<string>)
    ensures ParseRows(SplitEach(Meaningful(lines))).None? ==> HasBadToken(lines)
  {
    var ms := Meaningful(lines);
    var tss := SplitEach(ms);
    if ParseRows(tss).None? {
      var i :| 0 <= i < |tss| && ParseAll(tss[i]).None?;
      var j :| 0 <= j < |tss[i]| && ParseNum(tss[i][j]).None?;
      MeaningfulFrom(lines, i);
      var k :| 0 <= k < |lines| && !IsBlank(lines[k]) && ms[i] == Strip(lines[k]);
      assert Tokens(lines[k]) == tss[i];
    }
  }

  /** A bad token on a non-blank line makes the parse fail. */
  lemma FailureOfBadToken(lines: seq<string>)
    ensures HasBadToken(lines) ==> ParseRows(SplitEach(Meaningful(lines))).None?
  {
    if HasBadToken(lines) {
      var k, j :| 0 <= k < |lines| && !IsBlank(lines[k]) && 0 <= j < |Tokens(lines[k])|
        && ParseNum(Tokens(lines[k])[j]).None?;
      MeaningfulAt(lines, k);
      var ms := Meaningful(lines);
      var tss := SplitEach(ms);
      var c := |Meaningful(lines[..k])|;
      assert ms[c] == Strip(lines[k]);
      assert tss[c] == Tokens(lines[k]);
      BadTokenBreaksRows(tss, c, j);
    }
  }

  /** One token that does not parse makes the parse of all rows fail. */
  lemma BadTokenBreaksRows(tss: seq<seq<string>>, c: nat, j: nat)
    requires c < |tss| && j < |tss[c]| && ParseNum(tss[c][j]).None?
    ensures ParseRows(tss).None?
  {
    assert ParseAll(tss[c]).None?;
  }

  /** The empty-file error is reported exactly when every line is blank
      (this includes a file without lines). */
  lemma MatrixEmptyIff(lines: seq<string>)
    ensures MatrixFromLines(lines) == Failure(MatrixEmpty) <==> AllBlank(lines)
  {
    MeaningfulEmptyIffAllBlank(lines);
  }

  /** The reader succeeds exactly when every token parses, some line is
      non-blank, and every non-blank line has as many tokens as there are
      non-blank lines. */
  lemma MatrixSuccessIff(lines: seq<string>)
    ensures MatrixFromLines(lines).Success? <==>
      && !HasBadToken(lines)
      && !AllBlank(lines)
      && forall k :: 0 <= k < |lines| && !IsBlank(lines[k]) ==> |Tokens(lines[k])| == |Meaningful(lines)|
  {
    MatrixNonNumericIff(lines);
    MatrixEmptyIff(lines);
    var ms := Meaningful(lines);
    var r := MatrixFromLines(lines);
    if r.Success? {
      forall k | 0 <= k < |lines| && !IsBlank(lines[k])
        ensures |Tokens(lines[k])| == |ms|
      {
        MatrixRowOfLine(lines, k);
      }
    }
    if && !HasBadToken(lines) && !AllBlank(lines)
       && forall k :: 0 <= k < |lines| && !IsBlank(lines[k]) ==> |Tokens(lines[k])| == |ms|
    {
      var rows := ParseRows(SplitEach(ms)).value;
      forall i | 0 <= i < |rows| ensures |rows[i]| == |rows| {
        MeaningfulFrom(lines, i);
        var k :| 0 <= k < |lines| && !IsBlank(lines[k]) && ms[i] == Strip(lines[k]);
        assert SplitEach(ms)[i] == Tokens(lines[k]);
      }
      assert !AnyRowNotOfLength(rows, |rows|);
    }
  }

  /** The squareness error is reported exactly when every token parses,
      some line is non-blank, and some non-blank line has a number of
      tokens other than the number of non-blank lines. */
  lemma MatrixNotSquareIff(lines: seq<string>)
    ensures MatrixFromLines(lines) == Failure(MatrixNotSquare) <==>
      && !HasBadToken(lines)
      && !AllBlank(lines)
      && exists k :: 0 <= k < |lines| && !IsBlank(lines[k]) && |Tokens(lines[k])| != |Meaningful(lines)|
  {
    MatrixNonNumericIff(lines);
    MatrixEmptyIff(lines);
    MatrixSuccessIff(lines);
  }

  // ---------------------------------------------------------------------
  // What the right-hand-side reader promises, line by line

  /** Some non-blank line is, once stripped, not a number as a whole. */
  predicate HasBadLine(lines: seq<string>) {
    exists k :: 0 <= k < |lines| && !IsBlank(lines[k]) && ParseNum(Strip(lines[k])).None?
  }

  /** A whitespace-only line never produces an entry. */
  lemma VectorBlankLineIgnored(lines: seq<string>, expected: int, k: nat)
    requires k < |lines| && IsBlank(lines[k])
    ensures VectorFromLines(lines, expected) == VectorFromLines(lines[..k] + lines[k + 1..], expected)
  {
    MeaningfulDropBlank(lines, k);
  }

  /** One entry per non-blank line, in file order: the non-blank line at `k`
      becomes entry `c`, where `c` counts the non-blank lines before it. */
  lemma VectorEntryOfLine(lines: seq<string>, expected: int, k: nat)
    requires k < |lines| && !IsBlank(lines[k]) && VectorFromLines(lines, expected).Success?
    ensures |VectorFromLines(lines, expected).value| == |Meaningful(lines)|
    ensures var v := VectorFromLines(lines, expected).value; var c := |Meaningful(lines[..k])|;
      c < |v| && ParseNum(Strip(lines[k])) == Some(v[c])
  {
    MeaningfulAt(lines, k);
  }

  /** The non-numeric error is reported exactly when some non-blank line,
      taken whole, does not parse. */
  lemma VectorNonNumericIff(lines: seq<string>, expected: int)
    ensures VectorFromLines(lines, expected) == Failure(VectorNonNumeric) <==> HasBadLine(lines)
  {
    var ms := Meaningful(lines);
    if ParseAll(ms).None? {
      var i :| 0 <= i < |ms| && ParseNum(ms[i]).None?;
      MeaningfulFrom(lines, i);
    }
    if HasBadLine(lines) {
      var k :| 0 <= k < |lines| && !IsBlank(lines[k]) && ParseNum(Strip(lines[k])).None?;
      MeaningfulAt(lines, k);
    }
  }

  /** The length error is reported exactly when every non-blank line parses
      and their number differs from `expected`; otherwise, with every line
      parsing, the reader succeeds. */
  lemma VectorLengthIff(lines: seq<string>, expected: int)
    ensures VectorFromLines(lines, expected) == Failure(VectorLengthMismatch) <==>
      !HasBadLine(lines) && |Meaningful(lines)| != expected
    ensures VectorFromLines(lines, expected).Success? <==>
      !HasBadLine(lines) && |Meaningful(lines)| == expected
  {
    VectorNonNumericIff(lines, expected);
  }

  /** A line holding two or more tokens, such as "1 2", is not one number:
      the reader reports the non-numeric error. */
  lemma VectorRejectsSeveralTokens(lines: seq<string>, expected: int, k: nat)
    requires k < |lines| && |Tokens(lines[k])| >= 2
    ensures VectorFromLines(lines, expected) == Failure(VectorNonNumeric)
  {
    var s := Strip(lines[k]);
    ParsedIsOneToken(s);
    assert !IsBlank(lines[k]);
    assert HasBadLine(lines);
    VectorNonNumericIff(lines, expected);
  }

  /** Whatever parses as a number splits into exactly itself. */
  lemma ParsedIsOneToken(s: string)
    ensures ParseNum(s).Some? ==> Split(s) == [s]
  {
    if ParseNum(s).Some? {
      SplitOfToken(s);
    }
  }
}
