/** The moves as the game runs them, on mutable 4x4 arrays: compress fills a
    fresh board with a position counter per row, merge rewrites its argument
    in place, reverse and transpose build fresh boards, and the four moves
    compose them.  No move method has a modifies clause, so none of them can
    change the board it is given; merge only ever rewrites the board that
    compress has just allocated. */
module Engine {
  import opened Rows
  import Boards

  /** The array has the board's 4x4 shape. */
  predicate Is4x4(a: array2<int>)
  {
    a.Length0 == 4 && a.Length1 == 4
  }

  /** The board an array holds. */
  function Cells(a: array2<int>): (g: Boards.Grid)
    requires Is4x4(a)
    reads a
    ensures Boards.IsBoard(g)
  {
    seq(4, r requires 0 <= r < 4 reads a => RowOf(a, r))
  }

  /** Row r of the array. */
  function RowOf(a: array2<int>, r: int): (s: Row)
    requires Is4x4(a) && 0 <= r < 4
    reads a
    ensures |s| == 4
  {
    seq(4, c requires 0 <= c < 4 reads a => a[r, c])
  }

  /** An array holds a board when it agrees with it cell by cell. */
  lemma CellsAre(a: array2<int>, h: Boards.Grid)
    requires Is4x4(a) && Boards.IsBoard(h)
    requires forall r, c :: 0 <= r < 4 && 0 <= c < 4 ==> a[r, c] == h[r][c]
    ensures Cells(a) == h
  {
    forall r | 0 <= r < 4 ensures Cells(a)[r] == h[r] {
    }
  }

  /** compress: a fresh board whose rows hold the tiles of the given rows,
      packed from column 0 in their original order. */
  method Compress(board: array2<int>) returns (newBoard: array2<int>)
    requires Is4x4(board)
    ensures fresh(newBoard) && Is4x4(newBoard)
    ensures Cells(newBoard) == Boards.CompressBoard(Cells(board))
  {
    ghost var g := Cells(board);
    newBoard := new int[4, 4]((_, _) => 0);
    for r := 0 to 4
      invariant forall i, j :: 0 <= i < r && 0 <= j < 4 ==> newBoard[i, j] == CompressRow(g[i])[j]
      invariant forall i, j :: r <= i < 4 && 0 <= j < 4 ==> newBoard[i, j] == 0
    {
      var pos := 0;
      for c := 0 to 4
        invariant pos == |NonZero(g[r][..c])|
        invariant forall j :: 0 <= j < pos ==> newBoard[r, j] == NonZero(g[r][..c])[j]
        invariant forall j :: pos <= j < 4 ==> newBoard[r, j] == 0
        invariant forall i, j :: 0 <= i < r && 0 <= j < 4 ==> newBoard[i, j] == CompressRow(g[i])[j]
        invariant forall i, j :: r < i < 4 && 0 <= j < 4 ==> newBoard[i, j] == 0
      {
        assert g[r][..c + 1][..c] == g[r][..c];
        if board[r, c] != 0 {
          newBoard[r, pos] := board[r, c];
          pos := pos + 1;
        }
      }
      assert g[r][..4] == g[r];
    }
    CellsAre(newBoard, Boards.CompressBoard(g));
  }

  /** merge, in place: each row scanned left to right, a tile equal to its
      right neighbour doubled and the neighbour emptied. */
  method Merge(board: array2<int>)
    requires Is4x4(board)
    modifies board
    ensures Cells(board) == Boards.MergeBoard(old(Cells(board)))
  {
    ghost var g := Cells(board);
    for r := 0 to 4
      invariant forall i, j :: 0 <= i < r && 0 <= j < 4 ==> board[i, j] == MergeRow(g[i])[j]
      invariant forall i, j :: r <= i < 4 && 0 <= j < 4 ==> board[i, j] == g[i][j]
    {
      assert RowOf(board, r) == g[r];
      for c := 0 to 3
        invariant MergeFrom(RowOf(board, r), c) == MergeRow(g[r])
        invariant forall i, j :: 0 <= i < r && 0 <= j < 4 ==> board[i, j] == MergeRow(g[i])[j]
        invariant forall i, j :: r < i < 4 && 0 <= j < 4 ==> board[i, j] == g[i][j]
      {
        ghost var before := RowOf(board, r);
        if board[r, c] == board[r, c + 1] && board[r, c] != 0 {
          board[r, c] := board[r, c] * 2;
          board[r, c + 1] := 0;
        }
        assert RowOf(board, r) == MergeAt(before, c);
      }
      assert RowOf(board, r) == MergeRow(g[r]);
      assert forall j :: 0 <= j < 4 ==> board[r, j] == RowOf(board, r)[j];
    }
    CellsAre(board, Boards.MergeBoard(g));
  }

  /** reverse: a fresh board with every row read right to left. */
  method Reverse(board: array2<int>) returns (newBoard: array2<int>)
    requires Is4x4(board)
    ensures fresh(newBoard) && Is4x4(newBoard)
    ensures Cells(newBoard) == Boards.Reverse(Cells(board))
  {
    newBoard := new int[4, 4]((r, c) requires 0 <= r < 4 && 0 <= c < 4 reads board => board[r, 3 - c]);
    CellsAre(newBoard, Boards.Reverse(Cells(board)));
  }

  /** transpose: a fresh board whose rows are the given board's columns. */
  method Transpose(board: array2<int>) returns (newBoard: array2<int>)
    requires Is4x4(board)
    ensures fresh(newBoard) && Is4x4(newBoard)
    ensures Cells(newBoard) == Boards.Transpose(Cells(board))
  {
    newBoard := new int[4, 4]((r, c) requires 0 <= r < 4 && 0 <= c < 4 reads board => board[c, r]);
    CellsAre(newBoard, Boards.Transpose(Cells(board)));
  }

  /** move_left: compress, merge the fresh result in place, compress again. */
  method MoveLeft(board: array2<int>) returns (newBoard: array2<int>)
    requires Is4x4(board)
    ensures fresh(newBoard) && Is4x4(newBoard) && unchanged(board)
    ensures Cells(newBoard) == Boards.MoveLeft(Cells(board))
  {
    var compressed := Compress(board);
    Merge(compressed);
    newBoard := Compress(compressed);
  }

  /** move_right: reverse, move left, reverse back. */
  method MoveRight(board: array2<int>) returns (newBoard: array2<int>)
    requires Is4x4(board)
    ensures fresh(newBoard) && Is4x4(newBoard) && unchanged(board)
    ensures Cells(newBoard) == Boards.MoveRight(Cells(board))
  {
    var reversed := Reverse(board);
    var moved := MoveLeft(reversed);
    newBoard := Reverse(moved);
  }

  /** move_up: transpose, move left, transpose back. */
  method MoveUp(board: array2<int>) returns (newBoard: array2<int>)
    requires Is4x4(board)
    ensures fresh(newBoard) && Is4x4(newBoard) && unchanged(board)
    ensures Cells(newBoard) == Boards.MoveUp(Cells(board))
  {
    var transposed := Transpose(board);
    var moved := MoveLeft(transposed);
    newBoard := Transpose(moved);
  }

  /** move_down: transpose, move right, transpose back. */
  method MoveDown(board: array2<int>) returns (newBoard: array2<int>)
    requires Is4x4(board)
    ensures fresh(newBoard) && Is4x4(newBoard) && unchanged(board)
    ensures Cells(newBoard) == Boards.MoveDown(Cells(board))
  {
    var transposed := Transpose(board);
    var moved := MoveRight(transposed);
    newBoard := Transpose(moved);
  }

  /** The move a direction key is bound to. */
  method Move(board: array2<int>, d: Boards.Direction) returns (newBoard: array2<int>)
    requires Is4x4(board)
    ensures fresh(newBoard) && Is4x4(newBoard) && unchanged(board)
    ensures Cells(newBoard) == Boards.Move(Cells(board), d)
  {
    match d
    case Up => newBoard := MoveUp(board);
    case Down => newBoard := MoveDown(board);
    case Left => newBoard := MoveLeft(board);
    case Right => newBoard := MoveRight(board);
  }
}
