/** The 4x4 board as a value: the four directional moves built from the row
    operations with reverse and transpose, the win and game-over classifiers,
    the spawn of a new tile and the sequencing of one turn. */
module Boards {
  import opened Rows

  /** A board as a list of rows, rows as lists of cells. */
  type Grid = seq<seq<int>>

  /** A position (row, column). */
  type Cell = (int, int)

  /** The board is always a 4x4 grid. */
  predicate IsBoard(g: Grid)
  {
    |g| == 4 && forall r :: 0 <= r < 4 ==> |g[r]| == 4
  }

  /** The board a new game starts from: every cell empty. */
  function EmptyBoard(): (g: Grid)
    ensures IsBoard(g)
  {
    seq(4, _ => Zeros(4))
  }

  /** compress: every row packed to the left. */
  function CompressBoard(g: Grid): (h: Grid)
    requires IsBoard(g)
    ensures IsBoard(h)
  {
    seq(4, r requires 0 <= r < 4 => CompressRow(g[r]))
  }

  /** merge: every row scanned left to right. */
  function MergeBoard(g: Grid): (h: Grid)
    requires IsBoard(g)
    ensures IsBoard(h)
  {
    seq(4, r requires 0 <= r < 4 => MergeRow(g[r]))
  }

  /** reverse: every row read right to left. */
  function Reverse(g: Grid): (h: Grid)
    requires IsBoard(g)
    ensures IsBoard(h)
  {
    seq(4, r requires 0 <= r < 4 => Rev(g[r]))
  }

  /** transpose: rows become columns. */
  function Transpose(g: Grid): (h: Grid)
    requires IsBoard(g)
    ensures IsBoard(h)
  {
    seq(4, r requires 0 <= r < 4 => seq(4, c requires 0 <= c < 4 => g[c][r]))
  }

  /** Column c of the board, top to bottom. */
  function Column(g: Grid, c: int): (col: Row)
    requires IsBoard(g) && 0 <= c < 4
    ensures |col| == 4
  {
    seq(4, r requires 0 <= r < 4 => g[r][c])
  }

  function MoveLeft(g: Grid): (h: Grid)
    requires IsBoard(g)
    ensures IsBoard(h)
  {
    CompressBoard(MergeBoard(CompressBoard(g)))
  }

  function MoveRight(g: Grid): (h: Grid)
    requires IsBoard(g)
    ensures IsBoard(h)
  {
    Reverse(MoveLeft(Reverse(g)))
  }

  function MoveUp(g: Grid): (h: Grid)
    requires IsBoard(g)
    ensures IsBoard(h)
  {
    Transpose(MoveLeft(Transpose(g)))
  }

  function MoveDown(g: Grid): (h: Grid)
    requires IsBoard(g)
    ensures IsBoard(h)
  {
    Transpose(MoveRight(Transpose(g)))
  }

  datatype Direction = Up | Down | Left | Right

  /** The move bound to a direction key. */
  function Move(g: Grid, d: Direction): (h: Grid)
    requires IsBoard(g)
    ensures IsBoard(h)
  {
    match d
    case Up => MoveUp(g)
    case Down => MoveDown(g)
    case Left => MoveLeft(g)
    case Right => MoveRight(g)
  }

  /** Total of all cells. */
  function Total(g: Grid): int
    requires IsBoard(g)
  {
    Sum(g[0]) + Sum(g[1]) + Sum(g[2]) + Sum(g[3])
  }

  /** Number of tiles on the board. */
  function Tiles(g: Grid): nat
    requires IsBoard(g)
  {
    Count(g[0]) + Count(g[1]) + Count(g[2]) + Count(g[3])
  }

  /** Number of merges move_left performs. */
  function LeftMerges(g: Grid): nat
    requires IsBoard(g)
  {
    MergeCount(CompressRow(g[0])) + MergeCount(CompressRow(g[1]))
    + MergeCount(CompressRow(g[2])) + MergeCount(CompressRow(g[3]))
  }

  /** Some cell holds 2048. */
  predicate HasWon(g: Grid)
    requires IsBoard(g)
  {
    exists r, c :: 0 <= r < 4 && 0 <= c < 4 && g[r][c] == 2048
  }

  /** No cell is empty and no two horizontally or vertically adjacent cells
      are equal. */
  predicate NoMoves(g: Grid)
    requires IsBoard(g)
  {
    (forall r, c :: 0 <= r < 4 && 0 <= c < 4 ==> g[r][c] != 0)
    && (forall r, c {:trigger g[r][c]} :: 0 <= r < 4 && 0 <= c < 3 ==> g[r][c] != g[r][c + 1])
    && (forall r, c {:trigger g[r][c]} :: 0 <= r < 3 && 0 <= c < 4 ==> g[r][c] != g[r + 1][c])
  }

  /** Row-major position of a cell. */
  function Index(p: Cell): int
  {
    4 * p.0 + p.1
  }

  /** The empty cells at row-major positions i and later, in row-major
      order. */
  function EmptyFrom(g: Grid, i: nat): (e: seq<Cell>)
    requires IsBoard(g) && i <= 16
    ensures forall k :: 0 <= k < |e| ==>
      0 <= e[k].0 < 4 && 0 <= e[k].1 < 4 && g[e[k].0][e[k].1] == 0 && i <= Index(e[k])
    decreases 16 - i
  {
    if i == 16 then []
    else (if g[i / 4][i % 4] == 0 then [(i / 4, i % 4)] else []) + EmptyFrom(g, i + 1)
  }

  /** The list of empty cells add_new_tile chooses from. */
  function EmptyCells(g: Grid): (e: seq<Cell>)
    requires IsBoard(g)
    ensures forall k :: 0 <= k < |e| ==> 0 <= e[k].0 < 4 && 0 <= e[k].1 < 4 && g[e[k].0][e[k].1] == 0
  {
    EmptyFrom(g, 0)
  }

  /** The random choice picks an element of the list when there is one. */
  predicate ValidChoice(g: Grid, choice: nat)
    requires IsBoard(g)
  {
    |EmptyCells(g)| == 0 || choice < |EmptyCells(g)|
  }

  /** The value of a new tile: 2 when the roll is under 0.9, else 4. */
  function SpawnValue(lowRoll: bool): int
  {
    if lowRoll then 2 else 4
  }

  /** add_new_tile with its random choices as parameters: choice indexes the
      row-major list of empty cells, lowRoll decides between 2 and 4.  The
      chosen cell was empty and now holds the new tile; every other cell is
      as before; a board without an empty cell is left as it is. */
  function Spawn(g: Grid, choice: nat, lowRoll: bool): (h: Grid)
    requires IsBoard(g) && ValidChoice(g, choice)
    ensures IsBoard(h)
    ensures |EmptyCells(g)| == 0 ==> h == g
    ensures |EmptyCells(g)| > 0 ==>
      var (r, c) := EmptyCells(g)[choice];
      g[r][c] == 0 && h[r][c] == SpawnValue(lowRoll) && (h[r][c] == 2 || h[r][c] == 4)
      && forall i, j :: 0 <= i < 4 && 0 <= j < 4 && (i, j) != (r, c) ==> h[i][j] == g[i][j]
  {
    var empty := EmptyCells(g);
    if |empty| == 0 then g
    else
      var (r, c) := empty[choice];
      g[r := g[r][c := SpawnValue(lowRoll)]]
  }

  /** The popup a turn ends with. */
  datatype Message = Silent | YouWin | GameOver

  /** The message shown after a move that changed the board: the win check
      comes before the game-over check. */
  function Verdict(h: Grid): (m: Message)
    requires IsBoard(h)
    ensures m == YouWin <==> HasWon(h)
    ensures m == GameOver <==> !HasWon(h) && NoMoves(h)
  {
    if HasWon(h) then YouWin else if NoMoves(h) then GameOver else Silent
  }

  datatype TurnResult = TurnResult(board: Grid, message: Message)

  /** One key press: the move; only if it changed the board, a spawn and
      then the classification of the new board. */
  function Turn(g: Grid, d: Direction, choice: nat, lowRoll: bool): (t: TurnResult)
    requires IsBoard(g) && (Move(g, d) == g || ValidChoice(Move(g, d), choice))
    ensures IsBoard(t.board)
  {
    var m := Move(g, d);
    if m == g then TurnResult(g, Silent)
    else
      var h := Spawn(m, choice, lowRoll);
      TurnResult(h, Verdict(h))
  }

  // ---------------------------------------------------------------------
  // Four-cell rows

  lemma Sum4(s: Row)
    requires |s| == 4
    ensures Sum(s) == s[0] + s[1] + s[2] + s[3]
  {
    assert s[1..][0] == s[1] && s[1..][1..] == s[2..];
    assert s[2..][0] == s[2] && s[2..][1..] == s[3..];
    assert s[3..][0] == s[3] && s[3..][1..] == [];
    assert Sum(s[3..]) == s[3];
    assert Sum(s[2..]) == s[2] + s[3];
    assert Sum(s[1..]) == s[1] + s[2] + s[3];
  }

  lemma Count4(s: Row)
    requires |s| == 4
    ensures Count(s) == Occupied(s[0]) + Occupied(s[1]) + Occupied(s[2]) + Occupied(s[3])
  {
    assert s == [s[0]] + ([s[1]] + ([s[2]] + [s[3]]));
    CountCons(s[0], [s[1]] + ([s[2]] + [s[3]]));
    CountCons(s[1], [s[2]] + [s[3]]);
    CountCons(s[2], [s[3]]);
    assert [s[3]][..0] == [];
  }

  // ---------------------------------------------------------------------
  // reverse and transpose

  /** reverse is an involution. */
  lemma ReverseInvolution(g: Grid)
    requires IsBoard(g)
    ensures Reverse(Reverse(g)) == g
  {
    forall r | 0 <= r < 4 ensures Reverse(Reverse(g))[r] == g[r] {
      RevRev(g[r]);
    }
  }

  /** transpose is an involution. */
  lemma TransposeInvolution(g: Grid)
    requires IsBoard(g)
    ensures Transpose(Transpose(g)) == g
  {
    forall r | 0 <= r < 4 ensures Transpose(Transpose(g))[r] == g[r] {
      assert forall c :: 0 <= c < 4 ==> Transpose(Transpose(g))[r][c] == g[r][c];
    }
  }

  lemma ReverseTotal(g: Grid)
    requires IsBoard(g)
    ensures Total(Reverse(g)) == Total(g) && Tiles(Reverse(g)) == Tiles(g)
  {
    RevSum(g[0]); RevSum(g[1]); RevSum(g[2]); RevSum(g[3]);
    RevCount(g[0]); RevCount(g[1]); RevCount(g[2]); RevCount(g[3]);
  }

  lemma TransposeTotal(g: Grid)
    requires IsBoard(g)
    ensures Total(Transpose(g)) == Total(g) && Tiles(Transpose(g)) == Tiles(g)
  {
    TransposeSum(g);
    TransposeCount(g);
  }

  /** The total as the sum of the sixteen cells. */
  lemma TotalByCells(g: Grid)
    requires IsBoard(g)
    ensures Total(g) == g[0][0] + g[0][1] + g[0][2] + g[0][3] + g[1][0] + g[1][1] + g[1][2] + g[1][3]
                      + g[2][0] + g[2][1] + g[2][2] + g[2][3] + g[3][0] + g[3][1] + g[3][2] + g[3][3]
  {
    Sum4(g[0]); Sum4(g[1]); Sum4(g[2]); Sum4(g[3]);
  }

  lemma TransposeSum(g: Grid)
    requires IsBoard(g)
    ensures Total(Transpose(g)) == Total(g)
  {
    TotalByCells(g);
    TotalByCells(Transpose(g));
  }

  /** 1 for a tile, 0 for an empty cell. */
  function Occupied(x: int): nat
  {
    if x != 0 then 1 else 0
  }

  /** The tile count as the sum over the sixteen cells. */
  lemma TilesByCells(g: Grid)
    requires IsBoard(g)
    ensures Tiles(g) == Occupied(g[0][0]) + Occupied(g[0][1]) + Occupied(g[0][2]) + Occupied(g[0][3])
                      + Occupied(g[1][0]) + Occupied(g[1][1]) + Occupied(g[1][2]) + Occupied(g[1][3])
                      + Occupied(g[2][0]) + Occupied(g[2][1]) + Occupied(g[2][2]) + Occupied(g[2][3])
                      + Occupied(g[3][0]) + Occupied(g[3][1]) + Occupied(g[3][2]) + Occupied(g[3][3])
  {
    Count4(g[0]); Count4(g[1]); Count4(g[2]); Count4(g[3]);
  }

  lemma TransposeCount(g: Grid)
    requires IsBoard(g)
    ensures Tiles(Transpose(g)) == Tiles(g)
  {
    TilesByCells(g);
    TilesByCells(Transpose(g));
  }

  // ---------------------------------------------------------------------
  // The moves, row by row and column by column

  /** move_left moves every row on its own. */
  lemma MoveLeftByRows(g: Grid, r: int)
    requires IsBoard(g) && 0 <= r < 4
    ensures MoveLeft(g)[r] == MoveLeftRow(g[r])
  {
  }

  /** move_right moves every row on its own, as the mirror image of a left
      move. */
  lemma MoveRightByRows(g: Grid, r: int)
    requires IsBoard(g) && 0 <= r < 4
    ensures MoveRight(g)[r] == Rev(MoveLeftRow(Rev(g[r])))
  {
  }

  /** move_up moves every column on its own, towards row 0. */
  lemma MoveUpByColumns(g: Grid, c: int)
    requires IsBoard(g) && 0 <= c < 4
    ensures Column(MoveUp(g), c) == MoveLeftRow(Column(g, c))
  {
    assert Transpose(g)[c] == Column(g, c);
  }

  /** move_down moves every column on its own, towards row 3. */
  lemma MoveDownByColumns(g: Grid, c: int)
    requires IsBoard(g) && 0 <= c < 4
    ensures Column(MoveDown(g), c) == Rev(MoveLeftRow(Rev(Column(g, c))))
  {
    assert Transpose(g)[c] == Column(g, c);
  }

  /** Every move conserves the total of the board. */
  lemma MoveConservesTotal(g: Grid, d: Direction)
    requires IsBoard(g)
    ensures Total(Move(g, d)) == Total(g)
  {
    match d
    case Left => LeftTotal(g);
    case Right => RightTotal(g);
    case Up =>
      TransposeTotal(g);
      LeftTotal(Transpose(g));
      TransposeTotal(MoveLeft(Transpose(g)));
    case Down =>
      TransposeTotal(g);
      RightTotal(Transpose(g));
      TransposeTotal(MoveRight(Transpose(g)));
  }

  /** move_left loses exactly one tile per merge. */
  lemma MoveLeftTiles(g: Grid)
    requires IsBoard(g)
    ensures Tiles(MoveLeft(g)) + LeftMerges(g) == Tiles(g)
  {
    MoveLeftRowCount(g[0]); MoveLeftRowCount(g[1]);
    MoveLeftRowCount(g[2]); MoveLeftRowCount(g[3]);
  }

  /** No move adds a tile. */
  lemma MoveNeverAddsTiles(g: Grid, d: Direction)
    requires IsBoard(g)
    ensures Tiles(Move(g, d)) <= Tiles(g)
  {
    match d
    case Left => MoveLeftTiles(g);
    case Right => RightTiles(g);
    case Up =>
      TransposeTotal(g);
      MoveLeftTiles(Transpose(g));
      TransposeTotal(MoveLeft(Transpose(g)));
    case Down =>
      TransposeTotal(g);
      RightTiles(Transpose(g));
      TransposeTotal(MoveRight(Transpose(g)));
  }

  lemma LeftTotal(g: Grid)
    requires IsBoard(g)
    ensures Total(MoveLeft(g)) == Total(g)
  {
    MoveLeftRowSum(g[0]); MoveLeftRowSum(g[1]); MoveLeftRowSum(g[2]); MoveLeftRowSum(g[3]);
  }

  lemma RightTotal(g: Grid)
    requires IsBoard(g)
    ensures Total(MoveRight(g)) == Total(g)
  {
    ReverseTotal(g);
    LeftTotal(Reverse(g));
    ReverseTotal(MoveLeft(Reverse(g)));
  }

  lemma RightTiles(g: Grid)
    requires IsBoard(g)
    ensures Tiles(MoveRight(g)) <= Tiles(g)
  {
    ReverseTotal(g);
    MoveLeftTiles(Reverse(g));
    ReverseTotal(MoveLeft(Reverse(g)));
  }

  // ---------------------------------------------------------------------
  // When a move leaves the board as it is

  /** move_left leaves every row of h alone. */
  predicate RowsFixed(h: Grid)
    requires IsBoard(h)
  {
    forall r :: 0 <= r < 4 ==> MoveLeftRow(h[r]) == h[r]
  }

  /** A row that a move cannot change: packed towards column 0 and without a
      mergeable pair. */
  lemma RowsFixedIff(h: Grid)
    requires IsBoard(h)
    ensures RowsFixed(h) <==> forall r :: 0 <= r < 4 ==> IsPacked(h[r]) && NoMerge(h[r])
  {
    forall r | 0 <= r < 4 {
      MoveLeftRowFixed(h[r]);
    }
  }

  /** Each move leaves the board alone exactly when move_left leaves alone
      every row of the board seen from that direction. */
  lemma MoveFixedIff(g: Grid)
    requires IsBoard(g)
    ensures MoveLeft(g) == g <==> RowsFixed(g)
    ensures MoveRight(g) == g <==> RowsFixed(Reverse(g))
    ensures MoveUp(g) == g <==> RowsFixed(Transpose(g))
    ensures MoveDown(g) == g <==> RowsFixed(Reverse(Transpose(g)))
  {
    LeftFixedIff(g);
    LeftFixedIff(Reverse(g));
    ReverseInvolution(g);
    ReverseInvolution(MoveLeft(Reverse(g)));
    LeftFixedIff(Transpose(g));
    TransposeInvolution(g);
    TransposeInvolution(MoveLeft(Transpose(g)));
    var t := Transpose(g);
    LeftFixedIff(Reverse(t));
    ReverseInvolution(t);
    ReverseInvolution(MoveLeft(Reverse(t)));
    TransposeInvolution(MoveRight(t));
  }

  lemma LeftFixedIff(g: Grid)
    requires IsBoard(g)
    ensures MoveLeft(g) == g <==> RowsFixed(g)
  {
    if RowsFixed(g) {
      forall r | 0 <= r < 4 ensures MoveLeft(g)[r] == g[r] {
        MoveLeftByRows(g, r);
      }
    }
  }

  /** Every row of h is full and has no two equal neighbours. */
  predicate FullDistinctRows(h: Grid)
    requires IsBoard(h)
  {
    (forall r, c :: 0 <= r < 4 && 0 <= c < 4 ==> h[r][c] != 0)
    && (forall r, c {:trigger h[r][c]} :: 0 <= r < 4 && 0 <= c < 3 ==> h[r][c] != h[r][c + 1])
  }

  lemma FullDistinctRowsFixed(h: Grid)
    requires IsBoard(h) && FullDistinctRows(h)
    ensures RowsFixed(h)
  {
    RowsFixedIff(h);
  }

  /** A board without moves is full without equal neighbours, read from
      each of the four sides. */
  lemma NoMovesFromEverySide(g: Grid)
    requires IsBoard(g) && NoMoves(g)
    ensures FullDistinctRows(g) && FullDistinctRows(Reverse(g))
    ensures FullDistinctRows(Transpose(g)) && FullDistinctRows(Reverse(Transpose(g)))
  {
    var rv, t := Reverse(g), Transpose(g);
    var rt := Reverse(t);
    forall r, c | 0 <= r < 4 && 0 <= c < 3 ensures rv[r][c] != rv[r][c + 1] {
      assert rv[r][c] == g[r][3 - c] && rv[r][c + 1] == g[r][2 - c];
    }
    forall r, c | 0 <= r < 4 && 0 <= c < 3 ensures t[r][c] != t[r][c + 1] {
      assert t[r][c] == g[c][r] && t[r][c + 1] == g[c + 1][r];
    }
    forall r, c | 0 <= r < 4 && 0 <= c < 3 ensures rt[r][c] != rt[r][c + 1] {
      assert rt[r][c] == t[r][3 - c] && rt[r][c + 1] == t[r][2 - c];
    }
  }

  /** When is_game_over holds, each of the four moves returns the board it
      was given. */
  lemma GameOverFixesMoves(g: Grid, d: Direction)
    requires IsBoard(g) && NoMoves(g)
    ensures Move(g, d) == g
  {
    NoMovesFromEverySide(g);
    FullDistinctRowsFixed(g);
    FullDistinctRowsFixed(Reverse(g));
    FullDistinctRowsFixed(Transpose(g));
    FullDistinctRowsFixed(Reverse(Transpose(g)));
    MoveFixedIff(g);
  }

  /** is_game_over is exact: every move leaves the board alone exactly when
      the game is over or the board is empty. */
  lemma StuckIffGameOver(g: Grid)
    requires IsBoard(g)
    ensures (forall d :: Move(g, d) == g) <==> NoMoves(g) || g == EmptyBoard()
  {
    if NoMoves(g) {
      forall d ensures Move(g, d) == g {
        GameOverFixesMoves(g, d);
      }
    } else if g == EmptyBoard() {
      forall d ensures Move(g, d) == g {
        forall r, c | 0 <= r < 4 && 0 <= c < 4 ensures g[r][c] == 0 {
          assert g[r] == Zeros(4);
        }
        EmptyFixesMoves(g, d);
      }
    }
    if forall d :: Move(g, d) == g {
      StuckIsGameOverOrEmpty(g);
    }
  }

  lemma EmptyRowsFixed(h: Grid)
    requires IsBoard(h) && forall r, c :: 0 <= r < 4 && 0 <= c < 4 ==> h[r][c] == 0
    ensures RowsFixed(h)
  {
    RowsFixedIff(h);
  }

  lemma EmptyFixesMoves(g: Grid, d: Direction)
    requires IsBoard(g) && forall r, c :: 0 <= r < 4 && 0 <= c < 4 ==> g[r][c] == 0
    ensures Move(g, d) == g
  {
    var rv, t := Reverse(g), Transpose(g);
    var rt := Reverse(t);
    forall r, c | 0 <= r < 4 && 0 <= c < 4 ensures rv[r][c] == 0 && t[r][c] == 0 {
      assert rv[r][c] == g[r][3 - c] && t[r][c] == g[c][r];
    }
    forall r, c | 0 <= r < 4 && 0 <= c < 4 ensures rt[r][c] == 0 {
      assert rt[r][c] == t[r][3 - c];
    }
    EmptyRowsFixed(g);
    EmptyRowsFixed(rv);
    EmptyRowsFixed(t);
    EmptyRowsFixed(rt);
    MoveFixedIff(g);
  }

  /** A row packed both ways is all empty or all full. */
  lemma PackedBothWays(s: Row, i: int, j: int)
    requires |s| == 4 && IsPacked(s) && IsPacked(Rev(s))
    requires 0 <= i < 4 && 0 <= j < 4 && s[i] == 0
    ensures s[j] == 0
  {
    if j < i {
      assert Rev(s)[3 - i] == 0 && Rev(s)[3 - j] == s[j];
    }
  }

  /** What the four fixed moves say about a board. */
  lemma StuckRows(g: Grid)
    requires IsBoard(g) && forall d :: Move(g, d) == g
    ensures forall r :: 0 <= r < 4 ==> IsPacked(g[r]) && NoMerge(g[r]) && IsPacked(Rev(g[r]))
    ensures forall c :: 0 <= c < 4 ==>
      IsPacked(Column(g, c)) && NoMerge(Column(g, c)) && IsPacked(Rev(Column(g, c)))
  {
    assert Move(g, Left) == g && Move(g, Right) == g && Move(g, Up) == g && Move(g, Down) == g;
    MoveFixedIff(g);
    RowsFixedIff(g);
    RowsFixedIff(Reverse(g));
    var t := Transpose(g);
    RowsFixedIff(t);
    RowsFixedIff(Reverse(t));
    forall c | 0 <= c < 4 ensures t[c] == Column(g, c) && Reverse(t)[c] == Rev(Column(g, c)) {
    }
  }

  lemma StuckIsGameOverOrEmpty(g: Grid)
    requires IsBoard(g) && forall d :: Move(g, d) == g
    ensures NoMoves(g) || g == EmptyBoard()
  {
    StuckRows(g);
    if exists r, c :: 0 <= r < 4 && 0 <= c < 4 && g[r][c] == 0 {
      var r, c :| 0 <= r < 4 && 0 <= c < 4 && g[r][c] == 0;
      forall i, j | 0 <= i < 4 && 0 <= j < 4 ensures g[i][j] == 0 {
        PackedBothWays(g[r], c, j);
        PackedBothWays(Column(g, j), r, i);
      }
      assert forall i :: 0 <= i < 4 ==> g[i] == Zeros(4);
    } else {
      forall r, c | 0 <= r < 4 && 0 <= c < 3 ensures g[r][c] != g[r][c + 1] {
        assert NoMerge(g[r]);
      }
      forall r, c {:trigger g[r][c]} | 0 <= r < 3 && 0 <= c < 4 ensures g[r][c] != g[r + 1][c] {
        assert NoMerge(Column(g, c));
        assert Column(g, c)[r] == g[r][c] && Column(g, c)[r + 1] == g[r + 1][c];
      }
    }
  }

  // ---------------------------------------------------------------------
  // The list of empty cells and the spawn

  /** The list holds every empty cell from position i on, and nothing else. */
  lemma {:induction false} EmptyFromComplete(g: Grid, i: nat, p: Cell)
    requires IsBoard(g) && i <= 16
    ensures p in EmptyFrom(g, i) <==>
      0 <= p.0 < 4 && 0 <= p.1 < 4 && g[p.0][p.1] == 0 && i <= Index(p)
    decreases 16 - i
  {
    if i < 16 {
      EmptyFromComplete(g, i + 1, p);
      var head: Cell := (i / 4, i % 4);
      var here := if g[head.0][head.1] == 0 then [head] else [];
      assert EmptyFrom(g, i) == here + EmptyFrom(g, i + 1);
      assert p in EmptyFrom(g, i) <==> p in here || p in EmptyFrom(g, i + 1);
      if 0 <= p.0 < 4 && 0 <= p.1 < 4 && Index(p) == i {
        IndexDecodes(p);
      }
    }
  }

  /** A cell is recovered from its row-major position. */
  lemma IndexDecodes(p: Cell)
    requires 0 <= p.0 < 4 && 0 <= p.1 < 4
    ensures Index(p) / 4 == p.0 && Index(p) % 4 == p.1
  {
  }

  /** The list is in strictly increasing row-major order. */
  lemma {:induction false} EmptyFromOrdered(g: Grid, i: nat)
    requires IsBoard(g) && i <= 16
    ensures forall k, l :: 0 <= k < l < |EmptyFrom(g, i)| ==>
      Index(EmptyFrom(g, i)[k]) < Index(EmptyFrom(g, i)[l])
    decreases 16 - i
  {
    if i < 16 {
      EmptyFromOrdered(g, i + 1);
      var e, rest := EmptyFrom(g, i), EmptyFrom(g, i + 1);
      if g[i / 4][i % 4] == 0 {
        assert e == [(i / 4, i % 4)] + rest;
        forall k, l | 0 <= k < l < |e| ensures Index(e[k]) < Index(e[l]) {
          if k > 0 {
            assert e[k] == rest[k - 1] && e[l] == rest[l - 1];
          } else {
            assert e[l] == rest[l - 1];
          }
        }
      }
    }
  }

  /** add_new_tile's list: exactly the empty cells, each once, in row-major
      order. */
  lemma EmptyCellsRowMajor(g: Grid)
    requires IsBoard(g)
    ensures forall p :: p in EmptyCells(g) <==> 0 <= p.0 < 4 && 0 <= p.1 < 4 && g[p.0][p.1] == 0
    ensures forall k, l :: 0 <= k < l < |EmptyCells(g)| ==>
      Index(EmptyCells(g)[k]) < Index(EmptyCells(g)[l])
  {
    forall p ensures p in EmptyCells(g) <==> 0 <= p.0 < 4 && 0 <= p.1 < 4 && g[p.0][p.1] == 0 {
      EmptyFromComplete(g, 0, p);
    }
    EmptyFromOrdered(g, 0);
  }

  lemma {:induction false} EmptyFromOfFull(g: Grid, i: nat)
    requires IsBoard(g) && i <= 16 && forall r, c :: 0 <= r < 4 && 0 <= c < 4 ==> g[r][c] != 0
    ensures EmptyFrom(g, i) == []
    decreases 16 - i
  {
    if i < 16 {
      EmptyFromOfFull(g, i + 1);
    }
  }

  /** On a board without an empty cell, add_new_tile changes nothing. */
  lemma SpawnOnFullBoard(g: Grid, choice: nat, lowRoll: bool)
    requires IsBoard(g) && forall r, c :: 0 <= r < 4 && 0 <= c < 4 ==> g[r][c] != 0
    ensures |EmptyCells(g)| == 0
    ensures Spawn(g, choice, lowRoll) == g
  {
    EmptyFromOfFull(g, 0);
  }

  /** On a board with an empty cell, add_new_tile adds exactly one tile. */
  lemma SpawnAddsOneTile(g: Grid, choice: nat, lowRoll: bool)
    requires IsBoard(g) && choice < |EmptyCells(g)|
    ensures Tiles(Spawn(g, choice, lowRoll)) == Tiles(g) + 1
  {
    var (r, c) := EmptyCells(g)[choice];
    var h := Spawn(g, choice, lowRoll);
    assert h == g[r := g[r][c := SpawnValue(lowRoll)]];
    FillCountsOne(g[r], c, SpawnValue(lowRoll));
  }

  /** Writing a tile into an empty cell adds one tile to the row. */
  lemma FillCountsOne(s: Row, c: int, v: int)
    requires 0 <= c < |s| && s[c] == 0 && v != 0
    ensures Count(s[c := v]) == Count(s) + 1
  {
    var a, b := s[..c], s[c + 1..];
    assert s == a + ([s[c]] + b);
    assert s[c := v] == a + ([v] + b);
    NonZeroAppend(a, [s[c]] + b);
    NonZeroAppend(a, [v] + b);
    CountCons(s[c], b);
    CountCons(v, b);
  }

  /** start_game's two spawns on the empty board leave exactly two tiles:
      the second spawn always finds an empty cell other than the first. */
  lemma StartSpawnsTwoTiles(choice1: nat, lowRoll1: bool, choice2: nat, lowRoll2: bool)
    requires ValidChoice(EmptyBoard(), choice1)
    requires ValidChoice(Spawn(EmptyBoard(), choice1, lowRoll1), choice2)
    ensures Tiles(Spawn(Spawn(EmptyBoard(), choice1, lowRoll1), choice2, lowRoll2)) == 2
  {
    var e := EmptyBoard();
    assert forall r :: 0 <= r < 4 ==> e[r] == Zeros(4);
    TilesByCells(e);
    EmptyCellsRowMajor(e);
    assert (0, 0) in EmptyCells(e);
    var g1 := Spawn(e, choice1, lowRoll1);
    SpawnAddsOneTile(e, choice1, lowRoll1);
    var p: Cell := if EmptyCells(e)[choice1] != (0, 0) then (0, 0) else (0, 1);
    assert g1[p.0][p.1] == 0;
    EmptyCellsRowMajor(g1);
    assert p in EmptyCells(g1);
    SpawnAddsOneTile(g1, choice2, lowRoll2);
  }

  // ---------------------------------------------------------------------
  // One turn

  /** Some cell of h is empty. */
  predicate HasEmpty(h: Grid)
    requires IsBoard(h)
  {
    exists r, c :: 0 <= r < 4 && 0 <= c < 4 && h[r][c] == 0
  }

  /** A board with an empty cell gives add_new_tile a non-empty list. */
  lemma RoomInList(h: Grid)
    requires IsBoard(h) && HasEmpty(h)
    ensures |EmptyCells(h)| > 0
  {
    var r, c :| 0 <= r < 4 && 0 <= c < 4 && h[r][c] == 0;
    EmptyCellsRowMajor(h);
    assert (r, c) in EmptyCells(h);
  }

  lemma ReverseKeepsRoom(h: Grid)
    requires IsBoard(h) && HasEmpty(h)
    ensures HasEmpty(Reverse(h))
  {
    var r, c :| 0 <= r < 4 && 0 <= c < 4 && h[r][c] == 0;
    assert Reverse(h)[r][3 - c] == 0;
  }

  lemma TransposeKeepsRoom(h: Grid)
    requires IsBoard(h) && HasEmpty(h)
    ensures HasEmpty(Transpose(h))
  {
    var r, c :| 0 <= r < 4 && 0 <= c < 4 && h[r][c] == 0;
    assert Transpose(h)[c][r] == 0;
  }

  /** A move_left that changes the board leaves an empty cell. */
  lemma LeftLeavesRoom(g: Grid)
    requires IsBoard(g) && MoveLeft(g) != g
    ensures HasEmpty(MoveLeft(g))
  {
    LeftFixedIff(g);
    var r :| 0 <= r < 4 && MoveLeftRow(g[r]) != g[r];
    MoveLeftByRows(g, r);
    MoveLeftRowLeavesRoom(g[r]);
    var c :| 0 <= c < 4 && MoveLeftRow(g[r])[c] == 0;
    assert MoveLeft(g)[r][c] == 0;
  }

  /** A move_right that changes the board leaves an empty cell. */
  lemma RightLeavesRoom(g: Grid)
    requires IsBoard(g) && MoveRight(g) != g
    ensures HasEmpty(MoveRight(g))
  {
    ReverseInvolution(g);
    assert MoveLeft(Reverse(g)) != Reverse(g);
    LeftLeavesRoom(Reverse(g));
    ReverseKeepsRoom(MoveLeft(Reverse(g)));
  }

  /** A move_up that changes the board leaves an empty cell. */
  lemma UpLeavesRoom(g: Grid)
    requires IsBoard(g) && MoveUp(g) != g
    ensures HasEmpty(MoveUp(g))
  {
    TransposeInvolution(g);
    assert MoveLeft(Transpose(g)) != Transpose(g);
    LeftLeavesRoom(Transpose(g));
    TransposeKeepsRoom(MoveLeft(Transpose(g)));
  }

  /** A move_down that changes the board leaves an empty cell. */
  lemma DownLeavesRoom(g: Grid)
    requires IsBoard(g) && MoveDown(g) != g
    ensures HasEmpty(MoveDown(g))
  {
    TransposeInvolution(g);
    assert MoveRight(Transpose(g)) != Transpose(g);
    RightLeavesRoom(Transpose(g));
    TransposeKeepsRoom(MoveRight(Transpose(g)));
  }

  /** Every move that changes the board leaves an empty cell, so the spawn
      of handle_key always finds one. */
  lemma ChangedMoveHasRoom(g: Grid, d: Direction)
    requires IsBoard(g) && Move(g, d) != g
    ensures HasEmpty(Move(g, d))
    ensures |EmptyCells(Move(g, d))| > 0
  {
    match d {
      case Left => LeftLeavesRoom(g);
      case Right => RightLeavesRoom(g);
      case Up => UpLeavesRoom(g);
      case Down => DownLeavesRoom(g);
    }
    RoomInList(Move(g, d));
  }

  /** A key whose move changes nothing leaves the board alone, spawns
      nothing and shows nothing.  Otherwise the moved board has an empty
      cell, and the turn's board is the moved board with exactly one more
      tile; the tile count never exceeds the one before the move plus one. */
  lemma TurnGating(g: Grid, d: Direction, choice: nat, lowRoll: bool)
    requires IsBoard(g) && (Move(g, d) == g || ValidChoice(Move(g, d), choice))
    ensures Move(g, d) == g ==> Turn(g, d, choice, lowRoll) == TurnResult(g, Silent)
    ensures Move(g, d) != g ==>
      |EmptyCells(Move(g, d))| > 0
      && Turn(g, d, choice, lowRoll).board == Spawn(Move(g, d), choice, lowRoll)
      && Tiles(Turn(g, d, choice, lowRoll).board) == Tiles(Move(g, d)) + 1
      && Tiles(Turn(g, d, choice, lowRoll).board) <= Tiles(g) + 1
  {
    var m := Move(g, d);
    MoveNeverAddsTiles(g, d);
    if m != g {
      ChangedMoveHasRoom(g, d);
      SpawnAddsOneTile(m, choice, lowRoll);
    }
  }

  /** A full board of alternating 2s and 4s is game over. */
  lemma CheckerboardIsGameOver()
    ensures IsBoard([[2, 4, 2, 4], [4, 2, 4, 2], [2, 4, 2, 4], [4, 2, 4, 2]])
    ensures NoMoves([[2, 4, 2, 4], [4, 2, 4, 2], [2, 4, 2, 4], [4, 2, 4, 2]])
  {
  }

  /** Win takes priority: a board that holds 2048 and has no move left
      reports a win. */
  lemma WinBeatsGameOver()
    ensures IsBoard([[2048, 4, 2, 4], [4, 2, 4, 2], [2, 4, 2, 4], [4, 2, 4, 2]])
    ensures NoMoves([[2048, 4, 2, 4], [4, 2, 4, 2], [2, 4, 2, 4], [4, 2, 4, 2]])
    ensures Verdict([[2048, 4, 2, 4], [4, 2, 4, 2], [2, 4, 2, 4], [4, 2, 4, 2]]) == YouWin
  {
    var g := [[2048, 4, 2, 4], [4, 2, 4, 2], [2, 4, 2, 4], [4, 2, 4, 2]];
    assert g[0][0] == 2048;
  }
}
