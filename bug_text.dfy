/**
 * The text form of the C++ Field: operator<< writes result on a line of its
 * own and then the X_SIZE rows of Y_SIZE characters, '#' for a wall and '.'
 * for an open cell; operator>> reads the int back, then one
 * whitespace-delimited word per row, and recalculates result.
 */
module BugText {
  import opened Wrappers
  import opened Decimal
  import opened Grid
  import opened BugWalk

  /** What operator<< writes for a field with this result and grid. */
  function Print(result: nat, g: Cells): string {
    NatText(result) + "\n" + RowsText(g)
  }

  /** The characters `>>` skips: isspace in the "C" locale. */
  predicate IsSpace(c: char) {
    c == ' ' || c == '\t' || c == '\n' || c == '\U{000B}' || c == '\U{000C}' || c == '\r'
  }

  /** The first position from i on that is not white space. */
  function SkipSpace(s: string, i: nat): (j: nat)
    requires i <= |s|
    ensures i <= j <= |s| && (j < |s| ==> !IsSpace(s[j]))
    ensures forall k :: i <= k < j ==> IsSpace(s[k])
    decreases |s| - i
  {
    if i < |s| && IsSpace(s[i]) then SkipSpace(s, i + 1) else i
  }

  /** The end of the run from i of digits (digits) or of non-space characters (!digits). */
  function RunEnd(s: string, i: nat, digits: bool): (j: nat)
    requires i <= |s|
    ensures i <= j <= |s|
    ensures forall k :: i <= k < j ==> if digits then IsDigit(s[k]) else !IsSpace(s[k])
    ensures j < |s| ==> if digits then !IsDigit(s[j]) else IsSpace(s[j])
    decreases |s| - i
  {
    if i < |s| && (if digits then IsDigit(s[i]) else !IsSpace(s[i])) then RunEnd(s, i + 1, digits) else i
  }

  /**
   * `in >> score` for an int: white space, an optional sign, then as many
   * digits as follow. No digit, or a value outside the int range, fails the
   * stream. On success: the value and the position after the last digit.
   */
  function ReadInt(s: string, i: nat): Option<(int, nat)>
    requires i <= |s|
  {
    var a := SkipSpace(s, i);
    var b := if a < |s| && (s[a] == '-' || s[a] == '+') then a + 1 else a;
    var e := RunEnd(s, b, true);
    if e == b then None
    else
      var v: int := if b > a && s[a] == '-' then 0 - DigitsValue(s[b..e]) as int else DigitsValue(s[b..e]);
      if IsInt32(v) then Some((v, e)) else None
  }

  /** `in >> row` for a std::string: white space, then the word up to the next white space. */
  function ReadWord(s: string, i: nat): (r: (string, nat))
    requires i <= |s|
    ensures i <= r.1 <= |s|
  {
    var a := SkipSpace(s, i);
    var e := RunEnd(s, a, false);
    (s[a..e], e)
  }

  /**
   * `wall[x][y] = (row[y] == WALL)` for y < Y_SIZE: row[size()] reads the
   * terminating '\0', so a word one character short is still read (its last
   * cell open), and a shorter one is read out of bounds.
   */
  function RowOf(word: string): Result<seq<bool>> {
    if |word| < M - 1 then Err(Malformed)
    else Ok(seq(M, y requires 0 <= y < M => y < |word| && word[y] == WallChar))
  }

  /** The k rows that follow position i. */
  function ReadRows(s: string, i: nat, k: nat): Result<(Cells, nat)>
    requires i <= |s|
    decreases k
  {
    if k == 0 then Ok(([], i))
    else
      var (word, j) := ReadWord(s, i);
      match RowOf(word)
      case Err(e) => Err(e)
      case Ok(row) =>
        match ReadRows(s, j, k - 1)
        case Err(e) => Err(e)
        case Ok((rows, end)) => Ok(([row] + rows, end))
  }

  /**
   * operator>> on the text s: Ok(None) when the int cannot be read (the
   * field is left as it was), Malformed when a row is read out of bounds,
   * and otherwise the grid to store (the int itself is discarded).
   */
  function Read(s: string): Result<Option<Cells>> {
    match ReadInt(s, 0)
    case None => Ok(None)
    case Some((_, i)) =>
      match ReadRows(s, i, N)
      case Err(e) => Err(e)
      case Ok((rows, _)) => Ok(Some(rows))
  }

  // ---------------------------------------------------------------------
  // Reading back what was written.

  predicate RowsShaped(g: Cells) {
    forall x :: 0 <= x < |g| ==> |g[x]| == M
  }

  /** A row's text is one word of Y_SIZE characters. */
  lemma WordOfRow(s: string, i: nat, row: seq<bool>, rest: string)
    requires |row| == M && i <= |s| && s[i..] == "\n" + RowText(row) + rest
    requires rest == [] || IsSpace(rest[0])
    ensures ReadWord(s, i) == (RowText(row), i + 1 + M)
  {
    assert s[i] == '\n';
    assert SkipSpace(s, i + 1) == i + 1;
    assert SkipSpace(s, i) == i + 1;
    forall k | i + 1 <= k < i + 1 + M
      ensures s[k] == RowText(row)[k - i - 1]
    {
      assert s[k] == s[i..][k - i];
    }
    if i + 1 + M < |s| {
      assert s[i + 1 + M] == rest[0];
    }
    RunEndIs(s, i + 1, i + 1 + M);
    assert s[i + 1..i + 1 + M] == RowText(row);
  }

  /** A row's word gives the row back. */
  lemma RowOfText(row: seq<bool>)
    requires |row| == M
    ensures RowOf(RowText(row)) == Ok(row)
  {
    var w := RowText(row);
    var r := RowOf(w).value;
    forall y | 0 <= y < M
      ensures r[y] == row[y]
    {
      assert w[y] == (if row[y] then WallChar else EmptyChar);
    }
    assert r == row;
  }

  /** The first row written after position i, and where the others start. */
  lemma FirstRow(s: string, i: nat, g: Cells) returns (j: nat)
    requires RowsShaped(g) && g != [] && i <= |s| && s[i..] == "\n" + RowsText(g)
    ensures j == i + 1 + M && j <= |s|
    ensures ReadWord(s, i) == (RowText(g[0]), j) && RowOf(RowText(g[0])) == Ok(g[0])
    ensures s[j..] == "\n" + RowsText(g[1..])
  {
    var rest := RowsText(g[1..]);
    assert RowsText(g) == RowText(g[0]) + "\n" + rest;
    var tail := "\n" + rest;
    assert s[i..] == "\n" + RowText(g[0]) + tail;
    WordOfRow(s, i, g[0], tail);
    RowOfText(g[0]);
    j := i + 1 + M;
    assert s[j..] == s[i..][1 + M..];
  }

  /** A run of non-space characters that ends at white space or at the end ends there. */
  lemma {:induction false} RunEndIs(s: string, i: nat, e: nat)
    requires i <= e <= |s|
    requires forall k :: i <= k < e ==> !IsSpace(s[k])
    requires e < |s| ==> IsSpace(s[e])
    ensures RunEnd(s, i, false) == e
    decreases e - i
  {
    if i < e {
      RunEndIs(s, i + 1, e);
    }
  }

  /** The rows written after position i are read back, each from its own line. */
  lemma {:induction false} RowsRoundTrip(s: string, i: nat, g: Cells)
    requires RowsShaped(g) && i <= |s| && s[i..] == "\n" + RowsText(g)
    ensures ReadRows(s, i, |g|) == Ok((g, i + |g| * (M + 1)))
    decreases |g|
  {
    if g != [] {
      var j := FirstRow(s, i, g);
      var rows := g[1..];
      RowsRoundTrip(s, j, rows);
      RowsCons(s, i, g, j, rows);
    }
  }

  /** The rows after the first, read back, give all the rows back. */
  lemma RowsCons(s: string, i: nat, g: Cells, j: nat, rows: Cells)
    requires g != [] && rows == g[1..] && i <= |s| && j == i + 1 + M && j <= |s|
    requires ReadWord(s, i) == (RowText(g[0]), j) && RowOf(RowText(g[0])) == Ok(g[0])
    requires ReadRows(s, j, |rows|) == Ok((rows, j + |rows| * (M + 1)))
    ensures ReadRows(s, i, |g|) == Ok((g, i + |g| * (M + 1)))
  {
    var end: nat := j + |rows| * (M + 1);
    assert end == i + |g| * (M + 1);
    assert [g[0]] + rows == g;
    ReadRowsCons(s, i, |g|, |rows|, RowText(g[0]), g[0], j, rows, g, end);
  }

  /** ReadRows, one row in: the word at i, its row, and the rows after it. */
  lemma ReadRowsCons(s: string, i: nat, k: nat, k1: nat, word: string, row: seq<bool>, j: nat, rows: Cells, all: Cells, end: nat)
    requires k == k1 + 1 && all == [row] + rows
    requires i <= |s| && ReadWord(s, i) == (word, j) && RowOf(word) == Ok(row)
    requires j <= |s| && ReadRows(s, j, k1) == Ok((rows, end))
    ensures ReadRows(s, i, k) == Ok((all, end))
  {
  }

  /** The result line is read back as the result, when it fits in an int. */
  lemma ResultRoundTrip(result: nat, g: Cells)
    requires IsInt32(result)
    ensures ReadInt(Print(result, g), 0) == Some((result, |NatText(result)|))
  {
    var s := Print(result, g);
    var t := NatText(result);
    assert s[0] == t[0];
    assert SkipSpace(s, 0) == 0;
    DigitRun(s, t);
    assert s[0..|t|] == t;
    NatTextValue(result);
  }

  lemma DigitRun(s: string, t: string)
    requires AllDigits(t) && |t| < |s| && s[..|t|] == t && s[|t|] == '\n'
    ensures RunEnd(s, 0, true) == |t|
  {
    DigitRunFrom(s, t, 0);
  }

  lemma {:induction false} DigitRunFrom(s: string, t: string, i: nat)
    requires AllDigits(t) && i <= |t| < |s| && s[..|t|] == t && s[|t|] == '\n'
    ensures RunEnd(s, i, true) == |t|
    decreases |t| - i
  {
    if i < |t| {
      assert s[i] == t[i];
      DigitRunFrom(s, t, i + 1);
    }
  }

  /**
   * Reading what operator<< wrote gives back the grid, when the result fits
   * the int that operator>> reads it into.
   */
  lemma PrintRead(result: nat, g: Cells)
    requires IsGrid(g) && IsInt32(result)
    ensures Read(Print(result, g)) == Ok(Some(g))
  {
    var s := Print(result, g);
    ResultRoundTrip(result, g);
    var i := |NatText(result)|;
    assert s[i..] == "\n" + RowsText(g);
    RowsRoundTrip(s, i, g);
  }

  /**
   * A result above the int range (result is a uint64) is written but not
   * read back: the int extraction fails and the field stays as it was.
   */
  lemma LargeResultNotRead(result: nat, g: Cells)
    requires result > IntMax
    ensures Read(Print(result, g)) == Ok(None)
  {
    var s := Print(result, g);
    var t := NatText(result);
    assert s[0] == t[0];
    assert SkipSpace(s, 0) == 0;
    DigitRun(s, t);
    assert s[0..|t|] == t;
    NatTextValue(result);
  }

  /**
   * Two fields with the same text have the same grid and the same result,
   * whatever the results (a uint64 result outside the int range included):
   * the result's digits end at the first '\n'.
   */
  lemma PrintInjective(r1: nat, g1: Cells, r2: nat, g2: Cells)
    requires IsGrid(g1) && IsGrid(g2)
    requires Print(r1, g1) == Print(r2, g2)
    ensures r1 == r2 && g1 == g2
  {
    var s := Print(r1, g1);
    var t1, t2 := NatText(r1), NatText(r2);
    assert s[..|t1|] == t1 && s[|t1|] == '\n';
    assert s[..|t2|] == t2 && s[|t2|] == '\n';
    DigitRun(s, t1);
    DigitRun(s, t2);
    NatTextValue(r1);
    NatTextValue(r2);
    assert RowsText(g1) == s[|t1| + 1..] == RowsText(g2);
    assert Print(0, g1) == Print(0, g2);
    PrintRead(0, g1);
    PrintRead(0, g2);
  }

  // ---------------------------------------------------------------------
  // The two operators on a field.

  /** operator<<: the result line, then each row and its line break. */
  method Write(field: FieldT) returns (out: string)
    requires Shaped(field.wall) && 0 <= field.result
    ensures out == Print(field.result, Snapshot(field.wall))
  {
    ghost var g := Snapshot(field.wall);
    out := NatText(field.result) + "\n";
    for x := 0 to N
      invariant out == NatText(field.result) + "\n" + RowsText(g[..x])
    {
      out := WriteRow(field.wall, x, out);
      RowsTextSnoc(g[..x], g[x]);
      assert g[..x + 1] == g[..x] + [g[x]];
    }
    assert g[..N] == g;
  }

  /** The inner loop of operator<<: row x of the wall, then its line break. */
  method WriteRow(wall: array2<bool>, x: int, line: string) returns (out: string)
    requires Shaped(wall) && 0 <= x < N
    ensures out == line + RowText(Snapshot(wall)[x]) + "\n"
  {
    ghost var row := Snapshot(wall)[x];
    out := line;
    for y := 0 to M
      invariant out == line + RowText(row)[..y]
    {
      out := out + [if wall[x, y] then WallChar else EmptyChar];
      assert RowText(row)[..y + 1] == RowText(row)[..y] + [RowText(row)[y]];
    }
    assert RowText(row)[..M] == RowText(row);
    out := out + "\n";
  }

  lemma {:induction false} RowsTextSnoc(rows: Cells, row: seq<bool>)
    ensures RowsText(rows + [row]) == RowsText(rows) + RowText(row) + "\n"
    decreases |rows|
  {
    if rows != [] {
      assert (rows + [row])[1..] == rows[1..] + [row];
      RowsTextSnoc(rows[1..], row);
    }
  }

  /**
   * operator>>: when the int cannot be read nothing changes; otherwise each
   * cell is set from its row and result is recalculated. A row read out of
   * bounds, or a border left open (which the search behind calculate needs
   * walled to stay inside the arrays), stops the model before any write.
   */
  method Load(field: FieldT, s: string, fuel: nat) returns (r: Result<bool>)
    requires field.Valid() && fuel <= Cap
    modifies field.wall, field, field.used, field.queue, field.counts
    ensures Read(s) == Ok(None) ==> r == Ok(false) && Snapshot(field.wall) == old(Snapshot(field.wall)) && field.result == old(field.result)
    ensures Read(s).Err? ==> r == Err(Read(s).error) && Snapshot(field.wall) == old(Snapshot(field.wall)) && field.result == old(field.result)
    ensures Read(s).Ok? && Read(s).value.Some? ==>
      var g := Read(s).value.value;
      IsGrid(g) &&
      (BorderWalled(g) ==> r == Ok(true) && field.Valid() && Snapshot(field.wall) == g && field.result == WalkResult(g, fuel)) &&
      (!BorderWalled(g) ==> r == Err(IndexOutOfBounds) && Snapshot(field.wall) == old(Snapshot(field.wall)) && field.result == old(field.result))
  {
    var read := Read(s);
    match read {
      case Ok(None) =>
        return Ok(false);
      case Err(e) =>
        return Err(e);
      case Ok(Some(g)) =>
        ReadShape(s);
        if !BorderWalled(g) {
          return Err(IndexOutOfBounds);
        }
        StoreCells(field.wall, g);
        var walk := field.Calculate(fuel);
        return Ok(true);
    }
  }

  /** What Read returns has X_SIZE rows of Y_SIZE cells. */
  lemma ReadShape(s: string)
    requires Read(s).Ok? && Read(s).value.Some?
    ensures IsGrid(Read(s).value.value)
  {
    var i := ReadInt(s, 0).value.1;
    RowsShape(s, i, N);
  }

  lemma {:induction false} RowsShape(s: string, i: nat, k: nat)
    requires i <= |s| && ReadRows(s, i, k).Ok?
    ensures |ReadRows(s, i, k).value.0| == k && RowsShaped(ReadRows(s, i, k).value.0)
    decreases k
  {
    if k > 0 {
      var (word, j) := ReadWord(s, i);
      RowsShape(s, j, k - 1);
    }
  }

  /** The cell loop of operator>>: wall[x][y] for every x and y. */
  method StoreCells(wall: array2<bool>, g: Cells)
    requires Shaped(wall) && IsGrid(g)
    modifies wall
    ensures Snapshot(wall) == g
  {
    for x := 0 to N
      invariant forall i, j :: 0 <= i < x && 0 <= j < M ==> wall[i, j] == g[i][j]
    {
      for y := 0 to M
        invariant forall i, j :: 0 <= i < x && 0 <= j < M ==> wall[i, j] == g[i][j]
        invariant forall j :: 0 <= j < y ==> wall[x, j] == g[x][j]
      {
        wall[x, y] := g[x][y];
      }
    }
    SnapshotEq(wall, g);
  }
}
