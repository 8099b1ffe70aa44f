/** The game object: the current board, spawning a tile into it, the win and
    game-over checks on it, and the handling of one direction key.  The
    window, the key-name lookup, the redraw and the popup are left out; the
    random choices of a spawn are parameters. */
module Game {
  import opened Boards
  import Engine

  class Game2048 {
    /** The current board, replaced by each move that changes it. */
    var board: array2<int>

    ghost predicate Valid()
      reads this
    {
      Engine.Is4x4(board)
    }

    /** A new game: the empty board, then start_game's two spawns. */
    constructor (choice1: nat, lowRoll1: bool, choice2: nat, lowRoll2: bool)
      requires ValidChoice(EmptyBoard(), choice1)
      requires ValidChoice(Spawn(EmptyBoard(), choice1, lowRoll1), choice2)
      ensures Valid() && fresh(board)
      ensures Engine.Cells(board)
        == Spawn(Spawn(EmptyBoard(), choice1, lowRoll1), choice2, lowRoll2)
    {
      board := new int[4, 4]((_, _) => 0);
      new;
      Engine.CellsAre(board, EmptyBoard());
      StartGame(choice1, lowRoll1, choice2, lowRoll2);
    }

    /** start_game: two tiles spawned one after the other. */
    method StartGame(choice1: nat, lowRoll1: bool, choice2: nat, lowRoll2: bool)
      requires Valid()
      requires ValidChoice(Engine.Cells(board), choice1)
      requires ValidChoice(Spawn(Engine.Cells(board), choice1, lowRoll1), choice2)
      modifies board
      ensures Engine.Cells(board)
        == Spawn(Spawn(old(Engine.Cells(board)), choice1, lowRoll1), choice2, lowRoll2)
    {
      AddNewTile(choice1, lowRoll1);
      AddNewTile(choice2, lowRoll2);
    }

    /** add_new_tile: writes the new tile into the chosen empty cell of the
        current board, if the board has an empty cell. */
    method AddNewTile(choice: nat, lowRoll: bool)
      requires Valid() && ValidChoice(Engine.Cells(board), choice)
      modifies board
      ensures Engine.Cells(board) == Spawn(old(Engine.Cells(board)), choice, lowRoll)
    {
      ghost var g := Engine.Cells(board);
      var emptyCells := EmptyCells(Engine.Cells(board));
      if |emptyCells| > 0 {
        var (r, c) := emptyCells[choice];
        board[r, c] := SpawnValue(lowRoll);
        Engine.CellsAre(board, Spawn(g, choice, lowRoll));
      }
    }

    /** check_win: some row of the current board holds 2048. */
    function CheckWin(): (won: bool)
      requires Valid()
      reads this, board
      ensures won <==> HasWon(Engine.Cells(board))
    {
      exists r :: 0 <= r < 4 && 2048 in Engine.Cells(board)[r]
    }

    /** is_game_over: no empty cell, then no equal horizontal neighbours, then
        no equal vertical neighbours, each scan returning at the first
        counterexample. */
    method IsGameOver() returns (over: bool)
      requires Valid()
      ensures over == NoMoves(Engine.Cells(board))
    {
      if exists r :: 0 <= r < 4 && 0 in Engine.Cells(board)[r] {
        return false;
      }
      for r := 0 to 4
        invariant forall i, j {:trigger board[i, j]} :: 0 <= i < r && 0 <= j < 3 ==> board[i, j] != board[i, j + 1]
      {
        for c := 0 to 3
          invariant forall j {:trigger board[r, j]} :: 0 <= j < c ==> board[r, j] != board[r, j + 1]
        {
          if board[r, c] == board[r, c + 1] {
            assert Engine.Cells(board)[r][c] == Engine.Cells(board)[r][c + 1];
            return false;
          }
        }
      }
      for r := 0 to 3
        invariant forall i, j {:trigger board[i, j]} :: 0 <= i < r && 0 <= j < 4 ==> board[i, j] != board[i + 1, j]
      {
        for c := 0 to 4
          invariant forall j {:trigger board[r, j]} :: 0 <= j < c ==> board[r, j] != board[r + 1, j]
        {
          if board[r, c] == board[r + 1, c] {
            assert Engine.Cells(board)[r][c] == Engine.Cells(board)[r + 1][c];
            return false;
          }
        }
      }
      return true;
    }

    /** handle_key for a direction key: the move builds a new board; only if
        it differs from the current one does it become the current board and
        go through SpawnAndReport.  The board it replaces is never written. */
    method HandleKey(d: Direction, choice: nat, lowRoll: bool) returns (message: Message)
      requires Valid()
      requires Move(Engine.Cells(board), d) == Engine.Cells(board)
        || ValidChoice(Move(Engine.Cells(board), d), choice)
      modifies this
      ensures Valid()
      ensures Engine.Cells(board) == Turn(old(Engine.Cells(board)), d, choice, lowRoll).board
      ensures message == Turn(old(Engine.Cells(board)), d, choice, lowRoll).message
      ensures Engine.Cells(old(board)) == old(Engine.Cells(board))
      ensures Move(old(Engine.Cells(board)), d) == old(Engine.Cells(board)) ==> board == old(board)
      ensures Move(old(Engine.Cells(board)), d) != old(Engine.Cells(board)) ==> fresh(board)
    {
      var newBoard := Engine.Move(board, d);
      message := Silent;
      if Engine.Cells(newBoard) != Engine.Cells(board) {
        board := newBoard;
        message := SpawnAndReport(choice, lowRoll);
      }
    }

    /** The rest of handle_key after a move that changed the board: a tile is
        spawned, then the win check runs before the game-over check. */
    method SpawnAndReport(choice: nat, lowRoll: bool) returns (message: Message)
      requires Valid() && ValidChoice(Engine.Cells(board), choice)
      modifies board
      ensures Engine.Cells(board) == Spawn(old(Engine.Cells(board)), choice, lowRoll)
      ensures message == Verdict(Engine.Cells(board))
    {
      AddNewTile(choice, lowRoll);
      message := Silent;
      if CheckWin() {
        message := YouWin;
      } else {
        var over := IsGameOver();
        if over {
          message := GameOver;
        }
      }
    }
  }
}
