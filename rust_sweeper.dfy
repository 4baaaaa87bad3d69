/** The game of src/main.rs: the reveal routine `explore` and one pass of
    the key-handling loop of `main`. */
module RustSweeper {
  import opened Board
  import opened Rng
  import opened Fill
  import Mines

  const UNOPENED: char := '?'
  const BOMB_COUNT: nat := 50

  // ---------------------------------------------------------------------
  // What `explore` reveals, stated without the queue
  // ---------------------------------------------------------------------

  /** The zero-count cells (y, x0), …, (y, x1), left to right: what one
      pass of the inner seeding loop of `explore` adds to the queue. */
  function ZeroRow(y: nat, x0: nat, x1: int, bombs: seq<Pos>, h: nat, w: nat): seq<Pos>
    decreases x1 - x0
  {
    if x1 < x0 then []
    else ZeroRow(y, x0, x1 - 1, bombs, h, w)
         + (if MinesAround(Pos(y, x1), bombs, h, w) == 0 then [Pos(y, x1)] else [])
  }

  /** One more column adds that cell when its count is zero. */
  lemma ZeroRowSnoc(y: nat, x0: nat, x: int, count: nat, bombs: seq<Pos>, h: nat, w: nat)
    requires x0 <= x && count == MinesAround(Pos(y, x), bombs, h, w)
    ensures ZeroRow(y, x0, x, bombs, h, w)
         == ZeroRow(y, x0, x - 1, bombs, h, w) + (if count == 0 then [Pos(y, x)] else [])
  {
  }

  lemma {:induction false} ZeroRowMembers(y: nat, x0: nat, x1: int, bombs: seq<Pos>, h: nat, w: nat, q: Pos)
    ensures q in ZeroRow(y, x0, x1, bombs, h, w) <==>
              q.row == y && x0 <= q.col <= x1 && MinesAround(q, bombs, h, w) == 0
    decreases x1 - x0
  {
    if x0 <= x1 {
      var prefix := ZeroRow(y, x0, x1 - 1, bombs, h, w);
      var count := MinesAround(Pos(y, x1), bombs, h, w);
      ZeroRowSnoc(y, x0, x1, count, bombs, h, w);
      ZeroRowMembers(y, x0, x1 - 1, bombs, h, w, q);
      if q == Pos(y, x1) {
        assert q !in prefix;
      } else {
        assert q in ZeroRow(y, x0, x1, bombs, h, w) <==> q in prefix;
      }
    }
  }

  /** The zero-count cells of rows y0..y1, columns x0..x1, row by row:
      what the two nested seeding loops of `explore` add to the queue. */
  function ZeroBlock(y0: nat, y1: int, x0: nat, x1: int, bombs: seq<Pos>, h: nat, w: nat): seq<Pos>
    decreases y1 - y0
  {
    if y1 < y0 then []
    else ZeroBlock(y0, y1 - 1, x0, x1, bombs, h, w) + ZeroRow(y1, x0, x1, bombs, h, w)
  }

  /** A cell is added exactly when it is in the block and its count is zero. */
  lemma {:induction false} ZeroBlockMembers(y0: nat, y1: int, x0: nat, x1: int, bombs: seq<Pos>, h: nat, w: nat, q: Pos)
    ensures q in ZeroBlock(y0, y1, x0, x1, bombs, h, w) <==>
              y0 <= q.row <= y1 && x0 <= q.col <= x1 && MinesAround(q, bombs, h, w) == 0
    decreases y1 - y0
  {
    if y0 <= y1 {
      ZeroBlockMembers(y0, y1 - 1, x0, x1, bombs, h, w, q);
      ZeroRowMembers(y1, x0, x1, bombs, h, w, q);
    }
  }

  /** The queue `explore` starts its loop with: the cursor, then the
      zero-count cells of the cursor's window. */
  function Seeds(cursor: Pos, bombs: seq<Pos>, h: nat, w: nat): seq<Pos>
  {
    [cursor] + NeighbourZeros(cursor, bombs, h, w)
  }

  /** The zero-count cells of the cursor's window, in the order the
      seeding loops visit them. */
  function NeighbourZeros(cursor: Pos, bombs: seq<Pos>, h: nat, w: nat): seq<Pos>
  {
    ZeroBlock(Lower(cursor.row), Upper(cursor.row, h), Lower(cursor.col), Upper(cursor.col, w), bombs, h, w)
  }

  lemma NeighbourZerosMembers(cursor: Pos, bombs: seq<Pos>, h: nat, w: nat, q: Pos)
    ensures q in NeighbourZeros(cursor, bombs, h, w) <==>
              q in Window(cursor, h, w) && MinesAround(q, bombs, h, w) == 0
  {
    ZeroBlockMembers(Lower(cursor.row), Upper(cursor.row, h), Lower(cursor.col), Upper(cursor.col, w), bombs, h, w, q);
    BlockMembers(Lower(cursor.row), Upper(cursor.row, h), Lower(cursor.col), Upper(cursor.col, w), q);
  }

  /** With no zero-count cell in the cursor's window (the cursor's own
      count is then positive too), the reveal opens the cursor alone. */
  lemma NumberedCursorAlone(cursor: Pos, bombs: seq<Pos>, h: nat, w: nat, q: Pos)
    requires InBounds(cursor, h, w)
    requires forall p :: p in Window(cursor, h, w) ==> MinesAround(p, bombs, h, w) > 0
    ensures InFill(q, Seeds(cursor, bombs, h, w), bombs, h, w) <==> q == cursor
  {
    WindowMembers(cursor, h, w, cursor);
    var alone := {cursor};
    forall p | p in Seeds(cursor, bombs, h, w)
      ensures p in alone
    {
      NeighbourZerosMembers(cursor, bombs, h, w, p);
    }
    assert Closed(alone, Seeds(cursor, bombs, h, w), bombs, h, w);
  }

  /** The seeding loop lets a numbered cursor open more than itself: on a
      board of at least 3×3 with one bomb in the corner (0, 0), revealing
      (1, 1), which shows 1, also opens (2, 2), whose count is 0. */
  lemma NumberedCursorOpensNeighbour(h: nat, w: nat)
    requires h >= 3 && w >= 3
    ensures MinesAround(Pos(1, 1), [Pos(0, 0)], h, w) > 0
    ensures InFill(Pos(2, 2), Seeds(Pos(1, 1), [Pos(0, 0)], h, w), [Pos(0, 0)], h, w)
  {
    var bombs := [Pos(0, 0)];
    WindowMembers(Pos(1, 1), h, w, Pos(0, 0));
    CountInBounds(Window(Pos(1, 1), h, w), bombs);
    MinesAroundZero(Pos(2, 2), bombs, h, w);
    WindowMembers(Pos(1, 1), h, w, Pos(2, 2));
    NeighbourZerosMembers(Pos(1, 1), bombs, h, w, Pos(2, 2));
    assert Pos(2, 2) in Seeds(Pos(1, 1), bombs, h, w);
  }

  // ---------------------------------------------------------------------
  // `explore`
  // ---------------------------------------------------------------------

  /** The seeding loops of `explore`: the cells of the cursor's window
      whose count is zero, in row-major order, which `explore` pushes onto
      the queue behind the cursor. */
  method ZeroNeighbours(cursor: Pos, bombs: seq<Pos>, height: nat, width: nat)
    returns (zeros: seq<Pos>)
    requires InBounds(cursor, height, width)
    ensures zeros == NeighbourZeros(cursor, bombs, height, width)
  {
    var lowerY, upperY := Lower(cursor.row), Upper(cursor.row, height);
    var lowerX, upperX := Lower(cursor.col), Upper(cursor.col, width);
    zeros := [];
    var y: int := lowerY;
    while y <= upperY
      invariant lowerY <= y <= upperY + 1
      invariant zeros == ZeroBlock(lowerY, y - 1, lowerX, upperX, bombs, height, width)
    {
      var row := ZeroRowCells(y, lowerX, upperX, bombs, height, width);
      zeros := zeros + row;
      assert zeros == ZeroBlock(lowerY, y, lowerX, upperX, bombs, height, width);
      y := y + 1;
    }
  }

  /** The inner `for x in lower_x_bound..=upper_x_bound` loop of the seeding. */
  method ZeroRowCells(y: nat, lowerX: nat, upperX: nat, bombs: seq<Pos>, height: nat, width: nat)
    returns (row: seq<Pos>)
    requires y < height && lowerX <= upperX < width
    ensures row == ZeroRow(y, lowerX, upperX, bombs, height, width)
  {
    row := [];
    var x: int := lowerX;
    while x <= upperX
      invariant lowerX <= x <= upperX + 1
      invariant row == ZeroRow(y, lowerX, x - 1, bombs, height, width)
    {
      var count := GetMinesAround(Pos(y, x), bombs, height, width);
      ZeroRowSnoc(y, lowerX, x, count, bombs, height, width);
      if count == 0 {
        row := row + [Pos(y, x)];
      }
      x := x + 1;
    }
  }

  /** `explore`. On a bomb it shows every bomb and reports death. Otherwise
      it runs the breadth-first fill and reports life: the board then shows
      exactly the fill of the cursor and the zero-count cells of its window,
      each cell with its count, and no bomb cell is written. A position is
      skipped when it is already processed (checked at dequeue), so each
      cell is processed once; only a cell of count zero queues its window;
      the loop ends because every pop either shortens the queue or adds a
      new cell of the board to `processed`. */
  method Explore(board: seq<seq<char>>, bombs: seq<Pos>, cursor: Pos)
    returns (board': seq<seq<char>>, alive: bool)
    requires ValidBoard(board)
    requires InBounds(cursor, |board|, |board[0]|) && AllInBounds(bombs, |board|, |board[0]|)
    ensures alive <==> cursor !in bombs
    ensures !alive ==> MinesShown(board, board', bombs)
    ensures alive ==> Revealed(board, board', Seeds(cursor, bombs, |board|, |board[0]|), bombs)
    ensures alive ==> forall i :: 0 <= i < |bombs| ==>
              board'[bombs[i].row][bombs[i].col] == board[bombs[i].row][bombs[i].col]
  {
    if cursor in bombs {
      board' := RevealMines(board, bombs);
      return board', false;
    }
    var height, width := |board|, |board[0]|;
    var processed: seq<Pos> := [];
    var zeros := ZeroNeighbours(cursor, bombs, height, width);
    var queue := [cursor] + zeros;
    ghost var seeds := Seeds(cursor, bombs, height, width);
    SeedsSafe(cursor, bombs, height, width);
    SeedsInFill(seeds, bombs, height, width);
    board' := board;
    while queue != []
      invariant InsideFill(queue, seeds, bombs, height, width)
      invariant InsideFill(processed, seeds, bombs, height, width)
      invariant Distinct(processed)
      invariant Shows(board, board', processed, bombs)
      invariant Frontier(processed, queue, seeds, bombs, height, width)
      decreases Cells(height, width) - (set q | q in processed), |queue|
    {
      var pos := queue[0];
      ghost var popped := queue;
      queue := queue[1..];
      if pos in processed {
        PopProcessed(processed, popped, seeds, bombs, height, width);
        continue;
      }
      var minesNearby := GetMinesAround(pos, bombs, height, width);
      MinesAroundBounds(pos, bombs, height, width);
      ShowsVisit(board, board', processed, pos, minesNearby, bombs);
      if minesNearby > 0 {
        board' := board'[pos.row := board'[pos.row][pos.col := NUMS[minesNearby - 1]]];
      } else {
        board' := board'[pos.row := board'[pos.row][pos.col := EMPTY]];
        FillStep(seeds, bombs, height, width, pos);
        queue := EnqueueWindow(queue, pos, height, width);
      }
      VisitKeepsInvariant(processed, popped, queue, seeds, bombs, height, width);
      VisitShrinks(processed, pos, height, width);
      processed := processed + [pos];
    }
    alive := true;
    FillIsProcessed(processed, seeds, bombs, height, width);
    ShowsFill(board, board', processed, seeds, bombs);
  }

  /** The queue `explore` starts its loop with holds in-bounds non-bombs only. */
  lemma SeedsSafe(cursor: Pos, bombs: seq<Pos>, h: nat, w: nat)
    requires InBounds(cursor, h, w) && cursor !in bombs
    ensures SafeSeeds(Seeds(cursor, bombs, h, w), bombs, h, w)
  {
    forall q | q in Seeds(cursor, bombs, h, w)
      ensures InBounds(q, h, w) && q !in bombs
    {
      if q != cursor {
        NeighbourZerosMembers(cursor, bombs, h, w, q);
        WindowInBounds(cursor, h, w);
        WindowMembers(q, h, w, q);
        CountInBounds(Window(q, h, w), bombs);
      }
    }
  }

  // ---------------------------------------------------------------------
  // One key press of `main`
  // ---------------------------------------------------------------------

  /** The body of the `loop` in `main` for one key press, after `ticks += 1`
      (`ticks` is that incremented value; `generate_mines` takes it by value,
      so the caller's `ticks` is never changed by a reveal). `fuel` bounds
      the draws of a first reveal. */
  method Step(g: Game, key: Key, ticks: nat, fuel: nat) returns (r: StepResult)
    requires ValidGame(g) && ticks < U32
    ensures r.Next? ==> ValidGame(r.game)
                        && |r.game.board| == |g.board| && |r.game.board[0]| == |g.board[0]|
    ensures !g.alive ==> r == Next(ResetGame(g, UNOPENED))
    ensures g.alive && key == Esc ==> r == Quit
    ensures r.Quit? ==> g.alive && key == Esc
    ensures r.Unfinished? ==> g.alive && key == Space && !g.gameStarted
    ensures g.alive && key == Up ==>
              r == Next(g.(cursor := g.cursor.(row := if g.cursor.row == 0 then |g.board| - 1 else g.cursor.row - 1)))
    ensures g.alive && key == Down ==>
              r == Next(g.(cursor := g.cursor.(row := if g.cursor.row == |g.board| - 1 then 0 else g.cursor.row + 1)))
    ensures g.alive && key == Left ==>
              r == Next(g.(cursor := g.cursor.(col := if g.cursor.col == 0 then |g.board[0]| - 1 else g.cursor.col - 1)))
    ensures g.alive && key == Right ==>
              r == Next(g.(cursor := g.cursor.(col := if g.cursor.col == |g.board[0]| - 1 then 0 else g.cursor.col + 1)))
    ensures g.alive && key == FlagKey ==> r == Next(g.(board := ToggleFlag(g.board, g.cursor, UNOPENED)))
    ensures g.alive && key == Other ==> r == Next(g)
    ensures g.alive && key == Space && g.board[g.cursor.row][g.cursor.col] != UNOPENED ==> r == Next(g)
    ensures g.alive && key == Space && g.board[g.cursor.row][g.cursor.col] == UNOPENED && r.Next? ==>
              Revealing(g, r.game, Seeds(g.cursor, r.game.bombs, |g.board|, |g.board[0]|))
    ensures g.alive && key == Space && g.board[g.cursor.row][g.cursor.col] == UNOPENED && r.Next?
            && !g.gameStarted ==>
              && |r.game.bombs| == BOMB_COUNT
              && (forall b :: b in r.game.bombs ==> !TooClose(g.cursor, b))
              && r.game.alive
              && r.game.board[g.cursor.row][g.cursor.col] == EMPTY
  {
    if !g.alive {
      ResetGameValid(g, UNOPENED);
      return Next(ResetGame(g, UNOPENED));
    }
    var height, width := |g.board|, |g.board[0]|;
    var cursor := g.cursor;
    match key {
      case Up =>
        StepBack(cursor.row, height);
        r := Next(g.(cursor := Pos((cursor.row + height - 1) % height, cursor.col)));
      case Down =>
        StepForward(cursor.row, height);
        r := Next(g.(cursor := Pos((cursor.row + 1) % height, cursor.col)));
      case Left =>
        StepBack(cursor.col, width);
        r := Next(g.(cursor := Pos(cursor.row, (cursor.col + width - 1) % width)));
      case Right =>
        StepForward(cursor.col, width);
        r := Next(g.(cursor := Pos(cursor.row, (cursor.col + 1) % width)));
      case Space =>
        if g.board[cursor.row][cursor.col] != UNOPENED {
          return Next(g);
        }
        var bombs := g.bombs;
        if !g.gameStarted {
          var seed, done;
          ghost var drawn;
          bombs, seed, done, drawn := Mines.GenerateMines(g.board, bombs, cursor, ticks, BOMB_COUNT, fuel);
          if !done {
            return Unfinished;
          }
          FirstRevealSafe(g.board, bombs, cursor);
        }
        var board', alive := Explore(g.board, bombs, cursor);
        r := Next(Game(board', bombs, cursor, true, alive));
        if !g.gameStarted {
          SeedShown(g.board, board', Seeds(cursor, bombs, |g.board|, |g.board[0]|), bombs, cursor);
        }
      case FlagKey =>
        r := Next(g.(board := ToggleFlag(g.board, cursor, UNOPENED)));
      case Esc =>
        r := Quit;
      case Other =>
        r := Next(g);
    }
  }

  /** Bombs generated around a first reveal keep clear of the cursor's
      window, so the cursor is no bomb and its count is zero. */
  lemma FirstRevealSafe(board: seq<seq<char>>, bombs: seq<Pos>, cursor: Pos)
    requires ValidBoard(board) && InBounds(cursor, |board|, |board[0]|)
    requires forall i :: 0 <= i < |bombs| ==> !TooClose(cursor, bombs[i])
    ensures cursor !in bombs
    ensures MinesAround(cursor, bombs, |board|, |board[0]|) == 0
  {
    TooCloseSymmetric(cursor, cursor);
    MinesAroundZero(cursor, bombs, |board|, |board[0]|);
  }
}
