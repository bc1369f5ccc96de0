/** The board as a value: a 20 x 10 matrix of ints, 0 meaning an empty cell and
    any other value the colour of a locked block. The functions here are the
    specifications the engine's in-place methods are proved against. */
module Grid {
  import opened Tetromino

  const Rows: nat := 20
  const Cols: nat := 10

  /** Rows top to bottom; `b[y][x]` is the cell in row y, column x. */
  type Board = seq<seq<int>>

  predicate WellFormed(b: Board)
  {
    |b| == Rows && forall y :: 0 <= y < |b| ==> |b[y]| == Cols
  }

  /** A fresh row, as `IntArray(cols)` makes it. */
  function EmptyRow(): seq<int>
  {
    seq(Cols, _ => 0)
  }

  function Blank(n: nat): Board
  {
    seq(n, _ => EmptyRow())
  }

  /** Cell (x, y) lies on the board and holds 0. */
  predicate CellFree(b: Board, x: int, y: int)
    requires WellFormed(b)
  {
    0 <= x < Cols && 0 <= y < Rows && b[y][x] == 0
  }

  /** The rotation state `state`, anchored at row r and column c, can stand on
      board b: each of its cells (c + dx, r + dy) is on the board and empty. */
  predicate Fits(b: Board, state: seq<Offset>, r: int, c: int)
    requires WellFormed(b)
  {
    |state| == 0 || (CellFree(b, c + state[0].0, r + state[0].1) && Fits(b, state[1..], r, c))
  }

  lemma {:induction false} FitsCells(b: Board, state: seq<Offset>, r: int, c: int)
    requires WellFormed(b)
    ensures Fits(b, state, r, c) <==> forall i :: 0 <= i < |state| ==> CellFree(b, c + state[i].0, r + state[i].1)
  {
    if |state| > 0 {
      FitsCells(b, state[1..], r, c);
      assert forall i :: 1 <= i < |state| ==> state[1..][i - 1] == state[i];
    }
  }

  /** A piece that fits stands on a row of the board. */
  lemma FitsRowBound(b: Board, state: seq<Offset>, r: int, c: int)
    requires WellFormed(b) && ValidState(state) && Fits(b, state, r, c)
    ensures -3 <= r < Rows
  {
    assert CellFree(b, c + state[0].0, r + state[0].1);
  }

  /** Every rotation state stands on the empty board wherever its 4 x 4 box
      lies on the board. */
  lemma FitsBlank(state: seq<Offset>, r: int, c: int)
    requires ValidState(state)
    requires 0 <= r && r + 3 < Rows && 0 <= c && c + 3 < Cols
    ensures WellFormed(Blank(Rows)) && Fits(Blank(Rows), state, r, c)
  {
    FitsCells(Blank(Rows), state, r, c);
  }

  /** The piece `state` anchored at (r, c) covers cell (x, y). */
  predicate Covers(state: seq<Offset>, r: int, c: int, x: int, y: int)
  {
    (x - c, y - r) in state
  }

  /** Board b with every on-board cell that the piece covers set to `color`
      and every other cell as it was. */
  function Placed(b: Board, state: seq<Offset>, r: int, c: int, color: int): (b': Board)
    requires WellFormed(b)
    ensures WellFormed(b')
  {
    seq(Rows, y requires 0 <= y < Rows =>
      seq(Cols, x requires 0 <= x < Cols =>
        if Covers(state, r, c, x, y) then color else b[y][x]))
  }

  /** Placing a piece that fits, in a non-zero colour, changes exactly the
      cells it covers, and each of them from empty to filled. */
  lemma PlacedChanges(b: Board, state: seq<Offset>, r: int, c: int, color: int, x: int, y: int)
    requires WellFormed(b) && Fits(b, state, r, c) && color != 0
    requires 0 <= y < Rows && 0 <= x < Cols
    ensures Placed(b, state, r, c, color)[y][x] != b[y][x] <==> Covers(state, r, c, x, y)
    ensures Covers(state, r, c, x, y) ==> b[y][x] == 0 && Placed(b, state, r, c, color)[y][x] == color
  {
    FitsCells(b, state, r, c);
    if Covers(state, r, c, x, y) {
      var i :| 0 <= i < |state| && state[i] == (x - c, y - r);
      assert CellFree(b, c + state[i].0, r + state[i].1);
    }
  }

  /** A row with no empty cell. */
  predicate Full(row: seq<int>)
  {
    forall x :: 0 <= x < |row| ==> row[x] != 0
  }

  /** The number of full rows. */
  function FullCount(rows: Board): (n: nat)
    ensures n <= |rows|
  {
    if rows == [] then 0 else (if Full(rows[0]) then 1 else 0) + FullCount(rows[1..])
  }

  /** The rows that are not full, in their original order. */
  function Keep(rows: Board): (kept: Board)
    ensures |kept| + FullCount(rows) == |rows|
    ensures forall y :: 0 <= y < |kept| ==> !Full(kept[y])
    ensures forall y :: 0 <= y < |kept| ==> kept[y] in rows
  {
    if rows == [] then []
    else (if Full(rows[0]) then [] else [rows[0]]) + Keep(rows[1..])
  }

  lemma {:induction false} KeepAppend(s: Board, t: Board)
    ensures Keep(s + t) == Keep(s) + Keep(t)
  {
    if s == [] {
      assert s + t == t;
    } else {
      assert (s + t)[0] == s[0];
      assert (s + t)[1..] == s[1..] + t;
      KeepAppend(s[1..], t);
    }
  }

  lemma {:induction false} KeepNoFull(s: Board)
    requires forall y :: 0 <= y < |s| ==> !Full(s[y])
    ensures Keep(s) == s
  {
    if s != [] {
      KeepNoFull(s[1..]);
    }
  }

  /** The rows of b from index r on that are not full, in their order. */
  function KeepFrom(b: Board, r: nat): (kept: Board)
    decreases |b| - r
  {
    if r >= |b| then [] else (if Full(b[r]) then [] else [b[r]]) + KeepFrom(b, r + 1)
  }

  lemma {:induction false} KeepFromSuffix(b: Board, r: nat)
    requires r <= |b|
    ensures KeepFrom(b, r) == Keep(b[r..])
    decreases |b| - r
  {
    if r < |b| {
      KeepFromSuffix(b, r + 1);
      assert b[r..][0] == b[r] && b[r..][1..] == b[r + 1..];
    }
  }

  /** One step of the bottom-up copy in line clearing: row r is either skipped
      (it is full) or written into the last blank slot above the rows kept so far. */
  lemma KeepStep(b: Board, r: nat, n: nat)
    requires r < |b| && !Full(b[r])
    ensures (Blank(n + 1) + KeepFrom(b, r + 1))[n := b[r]] == Blank(n) + KeepFrom(b, r)
  {
    assert Blank(n + 1) == Blank(n) + [EmptyRow()];
  }

  /** Writing an empty row over one of the empty rows on top changes nothing. */
  lemma BlankRewrite(n: nat, rest: Board, t: int)
    requires 0 <= t < n
    ensures (Blank(n) + rest)[t := EmptyRow()] == Blank(n) + rest
  {
    assert (Blank(n) + rest)[t] == EmptyRow();
  }

  /** Line clearing: the full rows removed, the others stacked at the bottom in
      their order, and as many empty rows on top as rows were removed. */
  function Cleared(b: Board): (b': Board)
    requires WellFormed(b)
    ensures WellFormed(b')
    ensures forall y :: 0 <= y < FullCount(b) ==> b'[y] == EmptyRow()
    ensures forall y :: 0 <= y < Rows ==> !Full(b'[y])
  {
    var b' := Blank(FullCount(b)) + Keep(b);
    assert forall y :: 0 <= y < FullCount(b) ==> b'[y] == EmptyRow() && b'[y][0] == 0;
    b'
  }

  lemma {:induction false} FullCountAppend(s: Board, t: Board)
    ensures FullCount(s + t) == FullCount(s) + FullCount(t)
  {
    if s == [] {
      assert s + t == t;
    } else {
      assert (s + t)[0] == s[0];
      assert (s + t)[1..] == s[1..] + t;
      FullCountAppend(s[1..], t);
    }
  }

  /** Every row that is not full moves down by the number of full rows below it,
      and so lands below the empty rows on top: the kept rows end bottom-aligned. */
  lemma ClearedShift(b: Board, y: int)
    requires WellFormed(b) && 0 <= y < Rows && !Full(b[y])
    ensures FullCount(b) <= y + FullCount(b[y + 1..]) < Rows
    ensures Cleared(b)[y + FullCount(b[y + 1..])] == b[y]
  {
    var pre, post := b[..y], b[y + 1..];
    assert b == pre + [b[y]] + post;
    FullCountAppend(pre + [b[y]], post);
    FullCountAppend(pre, [b[y]]);
    assert FullCount([b[y]]) == 0 by {
      assert [b[y]][1..] == [];
    }
    KeepAppend(pre + [b[y]], post);
    KeepAppend(pre, [b[y]]);
    assert [b[y]][1..] == [];
    assert Keep([b[y]]) == [b[y]];
    assert Keep(b) == Keep(pre) + [b[y]] + Keep(post);
    assert Keep(b)[|Keep(pre)|] == b[y];
  }

  /** Clearing keeps the order of the rows that stay: the target row
      `y + FullCount(b[y + 1..])` of ClearedShift grows strictly from any row
      y1 to a lower row y2 that is not full. */
  lemma {:induction false} ClearedKeepsOrder(b: Board, y1: int, y2: int)
    requires WellFormed(b) && 0 <= y1 < y2 < Rows && !Full(b[y2])
    ensures y1 + FullCount(b[y1 + 1..]) < y2 + FullCount(b[y2 + 1..])
    decreases y2 - y1
  {
    assert b[y1 + 1..][0] == b[y1 + 1] && b[y1 + 1..][1..] == b[y1 + 2..];
    if y1 + 1 < y2 {
      ClearedKeepsOrder(b, y1 + 1, y2);
    }
  }

  /** With no full row, clearing changes nothing. */
  lemma ClearedNoFull(b: Board)
    requires WellFormed(b) && forall y :: 0 <= y < Rows ==> !Full(b[y])
    ensures Cleared(b) == b
  {
    KeepNoFull(b);
    assert Blank(FullCount(b)) == [];
  }

  /** Clearing twice is clearing once. */
  lemma ClearedIdempotent(b: Board)
    requires WellFormed(b)
    ensures Cleared(Cleared(b)) == Cleared(b)
  {
    ClearedNoFull(Cleared(b));
  }

  /** The row a fitting piece comes to rest on when it falls straight down. */
  function LandingRow(b: Board, state: seq<Offset>, r: int, c: int): (h: int)
    requires WellFormed(b) && ValidState(state) && Fits(b, state, r, c)
    ensures r <= h < Rows
    ensures Fits(b, state, h, c) && !Fits(b, state, h + 1, c)
    decreases Rows - r
  {
    FitsRowBound(b, state, r, c);
    if Fits(b, state, r + 1, c) then LandingRow(b, state, r + 1, c) else r
  }

  /** The landing row is the first row, going down from r, below which the
      piece no longer fits, provided it fits all the way there. */
  lemma {:induction false} LandingRowUnique(b: Board, state: seq<Offset>, r: int, c: int, h: int)
    requires WellFormed(b) && ValidState(state) && r <= h
    requires forall k :: r <= k <= h ==> Fits(b, state, k, c)
    requires !Fits(b, state, h + 1, c)
    ensures LandingRow(b, state, r, c) == h
    decreases h - r
  {
    if r < h {
      LandingRowUnique(b, state, r + 1, c, h);
    }
  }
}
