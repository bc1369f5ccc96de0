/** The game engine: the board, the active piece and the commands that move it,
    the gravity step and the lock sequence (place, clear lines, spawn). */
module Engine {
  import opened Tetromino
  import opened Grid

  /** Where every new piece appears: row 0, column `cols / 2 - 1`. */
  const SpawnRow: int := 0
  const SpawnCol: int := Cols / 2 - 1

  /** The board after piece p in rotation rot, anchored at (r, c), locks and the
      piece `next` spawns: placed, cleared, and wiped if `next` does not fit. */
  function LockedBoard(b: Board, p: Piece, rot: nat, r: int, c: int, next: Piece): (b': Board)
    requires WellFormed(b) && rot < |p.shapes| && 1 <= |next.shapes|
    ensures WellFormed(b')
  {
    var cleared := Cleared(Placed(b, p.shapes[rot], r, c, p.color));
    if Fits(cleared, next.shapes[0], SpawnRow, SpawnCol) then cleared else Blank(Rows)
  }

  /** After any lock the next piece can stand at the spawn point. */
  lemma LockedBoardFits(b: Board, p: Piece, rot: nat, r: int, c: int, next: Piece)
    requires WellFormed(b) && rot < |p.shapes| && ValidPiece(next)
    ensures Fits(LockedBoard(b, p, rot, r, c, next), next.shapes[0], SpawnRow, SpawnCol)
  {
    FitsBlank(next.shapes[0], SpawnRow, SpawnCol);
  }

  /** Every kind of the table can stand at the spawn point of an empty board,
      so the first piece needs no check. */
  lemma SpawnOnEmpty(k: Kind)
    ensures WellFormed(Blank(Rows)) && Fits(Blank(Rows), Entry(k).shapes[0], SpawnRow, SpawnCol)
  {
    FitsBlank(Entry(k).shapes[0], SpawnRow, SpawnCol);
  }

  /** An O piece dropped from the spawn point of an empty board comes to rest
      on row 18. */
  lemma DropOOnEmpty()
    ensures WellFormed(Blank(Rows)) && Fits(Blank(Rows), Entry(O).shapes[0], SpawnRow, SpawnCol)
    ensures LandingRow(Blank(Rows), Entry(O).shapes[0], SpawnRow, SpawnCol) == 18
  {
    var b, s := Blank(Rows), Entry(O).shapes[0];
    assert s == [(1, 0), (2, 0), (1, 1), (2, 1)];
    forall k | 0 <= k <= 18
      ensures Fits(b, s, k, SpawnCol)
    {
      if k <= 16 {
        FitsBlank(s, k, SpawnCol);
      } else {
        FitsCells(b, s, k, SpawnCol);
      }
    }
    FitsCells(b, s, 19, SpawnCol);
    assert !CellFree(b, SpawnCol + s[2].0, 19 + s[2].1);
    LandingRowUnique(b, s, SpawnRow, SpawnCol, 18);
  }

  /** Locked on row 18, the O piece fills exactly the cells of rows 18-19 in
      columns 5-6: its offsets start at dx = 1, one column right of the anchor. */
  lemma LockOOnEmpty()
    ensures WellFormed(Blank(Rows))
    ensures forall y, x :: 0 <= y < Rows && 0 <= x < Cols ==>
      (Placed(Blank(Rows), Entry(O).shapes[0], 18, SpawnCol, Entry(O).color)[y][x] != 0 <==>
       (y == 18 || y == 19) && (x == 5 || x == 6))
  {
    assert Entry(O).shapes[0] == [(1, 0), (2, 0), (1, 1), (2, 1)];
  }

  /** The whole lock sequence of that O piece: no row is full (column 0 stays
      empty), so nothing is cleared, and any next piece fits at the spawn point,
      so the board is not wiped: the board after the lock is the placed board. */
  lemma LockOOnEmptyKeepsPlaced(next: Piece)
    requires ValidPiece(next)
    ensures WellFormed(Blank(Rows))
    ensures LockedBoard(Blank(Rows), Entry(O), 0, 18, SpawnCol, next)
      == Placed(Blank(Rows), Entry(O).shapes[0], 18, SpawnCol, Entry(O).color)
  {
    var s := Entry(O).shapes[0];
    assert s == [(1, 0), (2, 0), (1, 1), (2, 1)];
    var p := Placed(Blank(Rows), s, 18, SpawnCol, Entry(O).color);
    forall y | 0 <= y < Rows
      ensures !Full(p[y])
    {
      assert p[y][0] == 0;
    }
    ClearedNoFull(p);
    var n := next.shapes[0];
    FitsCells(p, n, SpawnRow, SpawnCol);
    forall i | 0 <= i < |n|
      ensures CellFree(p, SpawnCol + n[i].0, SpawnRow + n[i].1)
    {
      assert !Covers(s, 18, SpawnCol, SpawnCol + n[i].0, SpawnRow + n[i].1);
    }
  }

  class GameView {
    var board: Board
    var current: Piece
    var curRow: int
    var curCol: int
    var rotation: nat

    /** The invariant of every reachable state: the board keeps its size and
        the active piece stands on it in bounds without overlapping blocks. */
    ghost predicate Valid()
      reads this
    {
      && WellFormed(board)
      && ValidPiece(current)
      && rotation < |current.shapes|
      && 0 <= curRow
      && Fits(board, current.shapes[rotation], curRow, curCol)
    }

    /** The blank board and the first piece at the spawn point. */
    constructor (first: Piece)
      requires ValidPiece(first)
      ensures Valid()
      ensures board == Blank(Rows) && current == first
      ensures curRow == SpawnRow && curCol == SpawnCol && rotation == 0
    {
      board := Blank(Rows);
      current := first;
      curRow := SpawnRow;
      curCol := SpawnCol;
      rotation := 0;
      FitsBlank(first.shapes[0], SpawnRow, SpawnCol);
    }

    /** Whether the active kind in rotation `rot` fits at row r, column c. */
    method CanMove(r: int, c: int, rot: nat) returns (ok: bool)
      requires WellFormed(board) && rot < |current.shapes|
      ensures ok == Fits(board, current.shapes[rot], r, c)
    {
      var state := current.shapes[rot];
      var i := 0;
      assert state[i..] == state;
      while i < |state|
        invariant 0 <= i <= |state|
        invariant Fits(board, state, r, c) == Fits(board, state[i..], r, c)
      {
        assert state[i..][0] == state[i] && state[i..][1..] == state[i + 1..];
        var x := c + state[i].0;
        var y := r + state[i].1;
        if !(0 <= x < Cols) || !(0 <= y < Rows) {
          return false;
        }
        if board[y][x] != 0 {
          return false;
        }
        i := i + 1;
      }
      return true;
    }

    method MoveLeft()
      requires Valid()
      modifies this`curCol
      ensures Valid()
      ensures curCol == if Fits(board, current.shapes[rotation], curRow, old(curCol) - 1)
                        then old(curCol) - 1 else old(curCol)
    {
      var ok := CanMove(curRow, curCol - 1, rotation);
      if ok {
        curCol := curCol - 1;
      }
    }

    method MoveRight()
      requires Valid()
      modifies this`curCol
      ensures Valid()
      ensures curCol == if Fits(board, current.shapes[rotation], curRow, old(curCol) + 1)
                        then old(curCol) + 1 else old(curCol)
    {
      var ok := CanMove(curRow, curCol + 1, rotation);
      if ok {
        curCol := curCol + 1;
      }
    }

    method Rotate()
      requires Valid()
      modifies this`rotation
      ensures Valid()
      ensures var next := NextRotation(current, old(rotation));
        rotation == if Fits(board, current.shapes[next], curRow, curCol) then next else old(rotation)
    {
      var newRot := NextRotation(current, rotation);
      var ok := CanMove(curRow, curCol, newRot);
      if ok {
        rotation := newRot;
      }
    }

    /** Hard drop: fall while the row below is free, then one gravity step,
        which locks the piece. `land` is the row the piece locks on: it falls
        through rows that all fit, fewer than `rows` of them, and stops above
        the first row that does not fit. */
    method Drop(next: Piece) returns (ghost land: int)
      requires Valid() && ValidPiece(next)
      modifies this
      ensures Valid()
      ensures old(curRow) <= land < old(curRow) + Rows
      ensures land == LandingRow(old(board), old(current).shapes[old(rotation)], old(curRow), old(curCol))
      ensures board == LockedBoard(old(board), old(current), old(rotation), land, old(curCol), next)
      ensures current == next && curRow == SpawnRow && curCol == SpawnCol && rotation == 0
    {
      ghost var b, p, rot, r0, c := board, current, rotation, curRow, curCol;
      ghost var state := p.shapes[rot];
      var ok := CanMove(curRow + 1, curCol, rotation);
      while ok
        invariant r0 <= curRow
        invariant board == b && current == p && rotation == rot && curCol == c
        invariant forall k :: r0 <= k <= curRow ==> Fits(b, state, k, c)
        invariant ok == Fits(b, state, curRow + 1, c)
        modifies this`curRow
        decreases Rows - curRow
      {
        FitsRowBound(b, state, curRow + 1, c);
        curRow := curRow + 1;
        ok := CanMove(curRow + 1, curCol, rotation);
      }
      FitsRowBound(b, state, curRow, c);
      land := curRow;
      LandingRowUnique(b, state, r0, c, land);
      assert !Fits(board, current.shapes[rotation], curRow + 1, curCol);
      Tick(next);
      assert board == LockedBoard(b, p, rot, land, c, next);
      assert b == old(board) && p == old(current) && rot == old(rotation) && c == old(curCol) && r0 == old(curRow);
    }

    /** One gravity step: fall a row if the row below is free, otherwise lock:
        place the piece, clear full rows and spawn `next`. */
    method Tick(next: Piece)
      requires Valid() && ValidPiece(next)
      modifies this
      ensures Valid()
      ensures Fits(old(board), old(current).shapes[old(rotation)], old(curRow) + 1, old(curCol)) ==>
        && board == old(board) && current == old(current)
        && curRow == old(curRow) + 1 && curCol == old(curCol) && rotation == old(rotation)
      ensures !Fits(old(board), old(current).shapes[old(rotation)], old(curRow) + 1, old(curCol)) ==>
        && board == LockedBoard(old(board), old(current), old(rotation), old(curRow), old(curCol), next)
        && current == next && curRow == SpawnRow && curCol == SpawnCol && rotation == 0
    {
      var ok := CanMove(curRow + 1, curCol, rotation);
      if ok {
        curRow := curRow + 1;
      } else {
        PlacePiece();
        ClearLines();
        SpawnPiece(next);
      }
    }

    /** Write the piece's colour into each of its cells that lies on the board. */
    method PlacePiece()
      requires WellFormed(board) && rotation < |current.shapes|
      modifies this`board
      ensures board == Placed(old(board), current.shapes[rotation], curRow, curCol, current.color)
    {
      var state := current.shapes[rotation];
      ghost var b0 := board;
      var i := 0;
      while i < |state|
        invariant 0 <= i <= |state|
        invariant WellFormed(board)
        invariant forall y, x :: 0 <= y < Rows && 0 <= x < Cols ==>
          board[y][x] == if Covers(state[..i], curRow, curCol, x, y) then current.color else b0[y][x]
      {
        var x := curCol + state[i].0;
        var y := curRow + state[i].1;
        if 0 <= y < Rows && 0 <= x < Cols {
          board := board[y := board[y][x := current.color]];
        }
        assert state[..i + 1] == state[..i] + [state[i]];
        i := i + 1;
      }
      assert state[..i] == state;
      ghost var p := Placed(b0, state, curRow, curCol, current.color);
      forall y | 0 <= y < Rows
        ensures board[y] == p[y]
      {
        assert forall x :: 0 <= x < Cols ==> board[y][x] == p[y][x];
      }
    }

    /** Copy the rows that are not full, bottom up, into a new board, fill the
        rows left over at the top with empty rows, and copy the result back. */
    method ClearLines()
      requires WellFormed(board)
      modifies this`board
      ensures board == Cleared(old(board))
    {
      var newBoard := Blank(Rows);
      var newRow := Rows - 1;
      var r := Rows - 1;
      while r >= 0
        invariant -1 <= r <= newRow < Rows
        invariant |newBoard| == Rows
        invariant newBoard == Blank(newRow + 1) + KeepFrom(board, r + 1)
        modifies {}
      {
        if !Full(board[r]) {
          KeepStep(board, r, newRow);
          newBoard := newBoard[newRow := board[r]];
          newRow := newRow - 1;
        }
        r := r - 1;
      }
      KeepFromSuffix(board, 0);
      assert board[0..] == board;
      var t := newRow;
      while t >= 0
        invariant -1 <= t <= newRow
        invariant newBoard == Blank(newRow + 1) + Keep(board)
        modifies {}
      {
        BlankRewrite(newRow + 1, Keep(board), t);
        newBoard := newBoard[t := EmptyRow()];
        t := t - 1;
      }
      assert newBoard == Cleared(board);
      r := 0;
      while r < Rows
        invariant 0 <= r <= Rows
        invariant |board| == Rows
        invariant forall y :: 0 <= y < r ==> board[y] == newBoard[y]
      {
        board := board[r := newBoard[r]];
        r := r + 1;
      }
    }

    /** Put `next` at the spawn point in its first rotation; if it does not fit
        there, the game is over and the whole board is wiped. */
    method SpawnPiece(next: Piece)
      requires WellFormed(board) && ValidPiece(next)
      modifies this
      ensures Valid()
      ensures current == next && curRow == SpawnRow && curCol == SpawnCol && rotation == 0
      ensures board == if Fits(old(board), next.shapes[0], SpawnRow, SpawnCol) then old(board) else Blank(Rows)
    {
      current := next;
      curRow := SpawnRow;
      curCol := SpawnCol;
      rotation := 0;
      var ok := CanMove(curRow, curCol, rotation);
      if !ok {
        var r := 0;
        while r < Rows
          invariant 0 <= r <= Rows
          invariant WellFormed(board)
          invariant forall y :: 0 <= y < r ==> board[y] == EmptyRow()
          modifies this`board
        {
          var c := 0;
          while c < Cols
            invariant 0 <= c <= Cols
            invariant WellFormed(board)
            invariant forall y :: 0 <= y < r ==> board[y] == EmptyRow()
            invariant forall x :: 0 <= x < c ==> board[r][x] == 0
            modifies this`board
          {
            board := board[r := board[r][c := 0]];
            c := c + 1;
          }
          assert board[r] == EmptyRow();
          r := r + 1;
        }
        assert board == Blank(Rows);
        FitsBlank(next.shapes[0], SpawnRow, SpawnCol);
      }
    }
  }
}
