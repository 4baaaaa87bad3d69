/** The C++ port (cppcode.cpp): its own constants, the mine count that its
    `explore` uses, the fixed 8×8 `explore` itself, and the key switch of
    `main`. The routines it shares with src/main.rs (`regen_random`,
    `cursor_too_close`, `generate_mines`, the vector `get_mines_around`,
    `reset_game`) are those of modules Rng, Board and Mines. */
module CppSweeper {
  import opened Board
  import opened Rng
  import opened Fill
  import Mines
  import RustSweeper

  const UNOPENED: char := '0'
  const BOMB_COUNT: nat := 30
  /** `explore` takes `char board[][8]` and sets `height = width = 8`. */
  const SIDE: nat := 8

  function Min(a: int, b: int): int
  {
    if a <= b then a else b
  }

  // ---------------------------------------------------------------------
  // The count `explore` uses
  // ---------------------------------------------------------------------

  /** `s` without the entries equal to `p`, order kept. */
  function Remove(s: seq<Pos>, p: Pos): seq<Pos>
  {
    if s == [] then []
    else Remove(s[..|s| - 1], p) + (if s[|s| - 1] == p then [] else [s[|s| - 1]])
  }

  /** The matches the scan over `bombs` finds for each cell of `s`, every
      entry equal to the cell counting once. */
  function CountMatches(s: seq<Pos>, bombs: seq<Pos>): nat
  {
    if s == [] then 0
    else CountMatches(s[..|s| - 1], bombs) + multiset(bombs)[s[|s| - 1]]
  }

  /** No match is found exactly when no cell of `s` is listed in `bombs`. */
  lemma {:induction false} CountMatchesZero(s: seq<Pos>, bombs: seq<Pos>)
    ensures CountMatches(s, bombs) == 0 <==> forall q :: q in s ==> q !in bombs
  {
    if s != [] {
      var init, last := s[..|s| - 1], s[|s| - 1];
      CountMatchesZero(init, bombs);
      assert s == init + [last];
      assert forall q :: q in s <==> q in init || q == last;
      assert multiset(bombs)[last] == 0 <==> last !in bombs;
    }
  }

  /** The count `explore` takes for `p`: matches in the clamped 3×3 window
      around `p`, the centre left out. */
  function NeighbourMines(p: Pos, bombs: seq<Pos>, h: nat, w: nat): nat
  {
    CountMatches(Remove(Window(p, h, w), p), bombs)
  }

  /** The port's count is zero exactly when no other in-bounds cell next to
      `p` is listed as a bomb. */
  lemma NeighbourMinesZero(p: Pos, bombs: seq<Pos>, h: nat, w: nat)
    requires InBounds(p, h, w)
    ensures NeighbourMines(p, bombs, h, w) == 0 <==>
              forall b :: b in bombs && InBounds(b, h, w) && TooClose(p, b) ==> b == p
  {
    var win := Window(p, h, w);
    RemovedCells(win, p);
    CountMatchesZero(Remove(win, p), bombs);
    forall b | b in bombs
      ensures b in win <==> InBounds(b, h, w) && TooClose(p, b)
    {
      WindowMembers(p, h, w, b);
    }
  }

  /** Listing `b` once more adds one match per occurrence of `b` in `s`. */
  lemma {:induction false} CountMatchesListedAgain(s: seq<Pos>, bombs: seq<Pos>, b: Pos)
    ensures CountMatches(s, bombs + [b]) == CountMatches(s, bombs) + multiset(s)[b]
  {
    if s != [] {
      var init, last := s[..|s| - 1], s[|s| - 1];
      CountMatchesListedAgain(init, bombs, b);
      assert s == init + [last];
      assert multiset(bombs + [b]) == multiset(bombs) + multiset{b};
    }
  }

  /** Removing `p` keeps every other cell's number of occurrences. */
  lemma {:induction false} RemoveKeepsOthers(s: seq<Pos>, p: Pos, b: Pos)
    requires b != p
    ensures multiset(Remove(s, p))[b] == multiset(s)[b]
  {
    if s != [] {
      var init, last := s[..|s| - 1], s[|s| - 1];
      RemoveKeepsOthers(init, p, b);
      assert s == init + [last];
    }
  }

  /** The scan counts every matching entry: listing a neighbour of `p`
      once more raises the port's count for `p` by one, whether or not it
      was listed already. */
  lemma BombListedAgain(p: Pos, bombs: seq<Pos>, h: nat, w: nat, b: Pos)
    requires InBounds(p, h, w) && InBounds(b, h, w) && TooClose(p, b) && b != p
    ensures NeighbourMines(p, bombs + [b], h, w) == NeighbourMines(p, bombs, h, w) + 1
  {
    var win := Window(p, h, w);
    WindowMembers(p, h, w, b);
    BlockDistinct(Lower(p.row), Upper(p.row, h), Lower(p.col), Upper(p.col, w));
    DistinctOccursOnce(win, b);
    RemoveKeepsOthers(win, p, b);
    CountMatchesListedAgain(Remove(win, p), bombs, b);
  }

  lemma RemovedCells(s: seq<Pos>, p: Pos)
    ensures forall q :: q in Remove(s, p) <==> q in s && q != p
  {
    forall q {
      RemoveMembers(s, p, q);
    }
  }

  lemma {:induction false} RemoveMembers(s: seq<Pos>, p: Pos, q: Pos)
    ensures q in Remove(s, p) <==> q in s && q != p
    ensures |Remove(s, p)| <= |s|
    ensures p in s ==> |Remove(s, p)| < |s|
  {
    if s != [] {
      var init := s[..|s| - 1];
      RemoveMembers(init, p, q);
      assert s == init + [s[|s| - 1]];
      assert forall x :: x in s <==> x in init || x == s[|s| - 1];
    }
  }

  /** Removing a cell that is not a bomb leaves the number of bombs among
      the cells as it was. */
  lemma {:induction false} CountInRemove(s: seq<Pos>, p: Pos, bombs: seq<Pos>)
    requires p !in bombs
    ensures CountIn(Remove(s, p), bombs) == CountIn(s, bombs)
  {
    if s != [] {
      var init, last := s[..|s| - 1], s[|s| - 1];
      CountInRemove(init, p, bombs);
      if last == p {
        assert Remove(s, p) == Remove(init, p) + [] == Remove(init, p);
        CountInSnoc(init, last, bombs);
        assert CountIn(s, bombs) == CountIn(init, bombs);
      } else {
        assert Remove(s, p) == Remove(init, p) + [last];
        CountInSnoc(Remove(init, p), last, bombs);
      }
    }
  }

  /** Removing a cell that occurs once and is a bomb lowers the count by one. */
  lemma {:induction false} CountInRemoveBomb(s: seq<Pos>, p: Pos, bombs: seq<Pos>)
    requires p in bombs
    requires forall i, j :: 0 <= i < j < |s| ==> s[i] != s[j]
    ensures CountIn(Remove(s, p), bombs) + (if p in s then 1 else 0) == CountIn(s, bombs)
  {
    if s != [] {
      var init, last := s[..|s| - 1], s[|s| - 1];
      assert s == init + [last];
      CountInRemoveBomb(init, p, bombs);
      CountInSnoc(init, last, bombs);
      if last == p {
        assert p !in init by {
          forall k | 0 <= k < |init|
            ensures init[k] != p
          {
            assert init[k] == s[k];
          }
        }
        assert Remove(s, p) == Remove(init, p);
      } else {
        assert p in s <==> p in init;
        assert Remove(s, p) == Remove(init, p) + [last];
        CountInSnoc(Remove(init, p), last, bombs);
      }
    }
  }

  /** Without duplicate bombs every match is a distinct bomb, so counting
      matches is counting bombs. */
  lemma {:induction false} MatchesAreBombs(s: seq<Pos>, bombs: seq<Pos>)
    requires Distinct(bombs)
    ensures CountMatches(s, bombs) == CountIn(s, bombs)
  {
    if s != [] {
      MatchesAreBombs(s[..|s| - 1], bombs);
      DistinctOccursOnce(bombs, s[|s| - 1]);
    }
  }

  lemma {:induction false} DistinctOccursOnce(bombs: seq<Pos>, q: Pos)
    requires Distinct(bombs)
    ensures multiset(bombs)[q] == if q in bombs then 1 else 0
  {
    if bombs != [] {
      var init := bombs[..|bombs| - 1];
      assert bombs == init + [bombs[|bombs| - 1]];
      assert Distinct(init);
      DistinctOccursOnce(init, q);
      assert bombs[|bombs| - 1] !in init;
    }
  }

  /** The window lists each cell once. */
  lemma {:induction false} RowSpanDistinct(y: nat, x0: nat, x1: int)
    ensures forall i, j :: 0 <= i < j < |RowSpan(y, x0, x1)| ==> RowSpan(y, x0, x1)[i] != RowSpan(y, x0, x1)[j]
    decreases x1 - x0
  {
    if x0 <= x1 {
      RowSpanDistinct(y, x0, x1 - 1);
      RowSpanMembers(y, x0, x1 - 1, Pos(y, x1));
    }
  }

  lemma {:induction false} BlockDistinct(y0: nat, y1: int, x0: nat, x1: int)
    ensures forall i, j :: 0 <= i < j < |Block(y0, y1, x0, x1)| ==> Block(y0, y1, x0, x1)[i] != Block(y0, y1, x0, x1)[j]
    decreases y1 - y0
  {
    if y0 <= y1 {
      var top, row := Block(y0, y1 - 1, x0, x1), RowSpan(y1, x0, x1);
      BlockDistinct(y0, y1 - 1, x0, x1);
      RowSpanDistinct(y1, x0, x1);
      forall i, j | 0 <= i < |top| && 0 <= j < |row|
        ensures top[i] != row[j]
      {
        BlockMembers(y0, y1 - 1, x0, x1, top[i]);
        RowSpanMembers(y1, x0, x1, row[j]);
      }
    }
  }

  /** With no bomb listed twice, the port's count plus one for a bomb at
      the centre is the count of src/main.rs: the two agree on every cell
      that is not a bomb, which are the only cells `explore` counts. */
  lemma CountsAgree(p: Pos, bombs: seq<Pos>, h: nat, w: nat)
    requires InBounds(p, h, w) && Distinct(bombs)
    ensures NeighbourMines(p, bombs, h, w) + (if p in bombs then 1 else 0) == MinesAround(p, bombs, h, w)
    ensures NeighbourMines(p, bombs, h, w) <= 8
  {
    var win := Window(p, h, w);
    MatchesAreBombs(Remove(win, p), bombs);
    WindowMembers(p, h, w, p);
    RemoveMembers(win, p, p);
    CountInBounds(Remove(win, p), bombs);
    if p in bombs {
      BlockDistinct(Lower(p.row), Upper(p.row, h), Lower(p.col), Upper(p.col, w));
      CountInRemoveBomb(win, p, bombs);
    } else {
      CountInRemove(win, p, bombs);
    }
  }

  // ---------------------------------------------------------------------
  // `explore`
  // ---------------------------------------------------------------------

  /** The `for i … for j …` offset loops that queue every in-bounds cell of
      the 3×3 square around `pos`, `pos` included, row by row. */
  method EnqueueNeighbourhood(queue: seq<Pos>, pos: Pos, height: nat, width: nat)
    returns (queue': seq<Pos>)
    requires InBounds(pos, height, width)
    ensures queue' == queue + Window(pos, height, width)
  {
    var lowerX, upperX := Lower(pos.col), Upper(pos.col, width);
    queue' := queue;
    var i: int := -1;
    while i <= 1
      invariant -1 <= i <= 2
      invariant queue' == queue + Block(Lower(pos.row), Min(pos.row + i - 1, height - 1), lowerX, upperX)
    {
      ghost var before := queue';
      queue' := EnqueueOffsetRow(queue', pos, i, height, width);
      var y: int := pos.row + i;
      if 0 <= y < height {
        assert Min(y, height - 1) == y && Min(y - 1, height - 1) == y - 1;
        assert Block(Lower(pos.row), y, lowerX, upperX)
            == Block(Lower(pos.row), y - 1, lowerX, upperX) + RowSpan(y, lowerX, upperX);
      } else if y < 0 {
        assert Min(y, height - 1) < Lower(pos.row);
      } else {
        assert Min(y, height - 1) == Min(y - 1, height - 1);
      }
      assert queue' == queue + Block(Lower(pos.row), Min(pos.row + i, height - 1), lowerX, upperX);
      i := i + 1;
    }
  }

  /** One pass of the inner `j` loop: row `pos.row + i`, when it lies on
      the board, with its in-bounds columns `pos.col - 1 ..= pos.col + 1`. */
  method EnqueueOffsetRow(queue: seq<Pos>, pos: Pos, i: int, height: nat, width: nat)
    returns (queue': seq<Pos>)
    requires InBounds(pos, height, width)
    ensures 0 <= pos.row + i < height ==>
              queue' == queue + RowSpan(pos.row + i, Lower(pos.col), Upper(pos.col, width))
    ensures !(0 <= pos.row + i < height) ==> queue' == queue
  {
    queue' := queue;
    var j: int := -1;
    while j <= 1
      invariant -1 <= j <= 2
      invariant 0 <= pos.row + i < height ==>
                  queue' == queue + RowSpan(pos.row + i, Lower(pos.col), Min(pos.col + j - 1, width - 1))
      invariant !(0 <= pos.row + i < height) ==> queue' == queue
    {
      var newY, newX := pos.row + i, pos.col + j;
      if newY >= 0 && newY < height && newX >= 0 && newX < width {
        queue' := queue' + [Pos(newY, newX)];
        assert Min(newX - 1, width - 1) == newX - 1;
        assert RowSpan(newY, Lower(pos.col), newX)
            == RowSpan(newY, Lower(pos.col), newX - 1) + [Pos(newY, newX)];
      } else if 0 <= newY < height && newX < 0 {
        assert Min(newX, width - 1) < Lower(pos.col);
      } else if 0 <= newY < height {
        assert Min(newX, width - 1) == Min(newX - 1, width - 1);
      }
      j := j + 1;
    }
  }

  /** `explore` on an 8×8 board, with every bomb of `bombs` among the
      `num_bombs` it scans. On a bomb it shows every bomb and reports
      death. Otherwise it runs the breadth-first fill from the cursor alone
      and reports life: the board then shows exactly the fill, each cell
      with its count, and no bomb cell is written. Each position is
      processed at most once; the loop stops early once 64 positions are
      processed, which by then is every cell, so the early stop loses
      nothing. */
  method Explore(board: seq<seq<char>>, bombs: seq<Pos>, cursor: Pos)
    returns (board': seq<seq<char>>, alive: bool)
    requires IsGrid(board, SIDE, SIDE)
    requires InBounds(cursor, SIDE, SIDE) && AllInBounds(bombs, SIDE, SIDE) && Distinct(bombs)
    ensures alive <==> cursor !in bombs
    ensures !alive ==> MinesShown(board, board', bombs)
    ensures alive ==> Revealed(board, board', [cursor], bombs)
    ensures alive ==> forall i :: 0 <= i < |bombs| ==>
              board'[bombs[i].row][bombs[i].col] == board[bombs[i].row][bombs[i].col]
  {
    if cursor in bombs {
      board' := RevealMines(board, bombs);
      return board', false;
    }
    var height, width := |board|, |board[0]|;
    ghost var seeds := [cursor];
    var processed: seq<Pos> := [];
    var queue := [cursor];
    var front := 0;
    SeedsInFill(seeds, bombs, height, width);
    board' := board;
    while front < |queue|
      invariant 0 <= front <= |queue|
      invariant InsideFill(queue[front..], seeds, bombs, height, width)
      invariant InsideFill(processed, seeds, bombs, height, width)
      invariant Distinct(processed)
      invariant Shows(board, board', processed, bombs)
      invariant Frontier(processed, queue[front..], seeds, bombs, height, width)
      decreases Cells(height, width) - (set q | q in processed), |queue| - front
    {
      var pos := queue[front];
      ghost var popped := queue[front..];
      front := front + 1;
      SliceTail(queue, front - 1);
      if |processed| >= 64 {
        EveryCellProcessed(processed, seeds, bombs);
        break;
      }
      if |processed| > 0 {
        if pos in processed {
          PopProcessed(processed, popped, seeds, bombs, height, width);
          continue;
        }
      }
      assert pos == popped[0] && pos in popped;
      board', queue := Visit(board, board', bombs, queue, front, processed, seeds);
      VisitShrinks(processed, pos, height, width);
      processed := processed + [pos];
    }
    if front == |queue| {
      assert queue[front..] == [];
    }
    assert Frontier(processed, [], seeds, bombs, height, width);
    alive := true;
    FillIsProcessed(processed, seeds, bombs, height, width);
    ShowsFill(board, board', processed, seeds, bombs);
  }

  /** The visit of the popped cell `queue[front - 1]`, not yet processed:
      it shows its count, and when that is zero its in-bounds
      neighbourhood joins the queue. The loop's facts then hold with the
      cell processed. */
  method Visit(board: seq<seq<char>>, shown: seq<seq<char>>, bombs: seq<Pos>, queue: seq<Pos>, front: nat,
               ghost processed: seq<Pos>, ghost seeds: seq<Pos>)
    returns (shown': seq<seq<char>>, queue': seq<Pos>)
    requires IsGrid(board, SIDE, SIDE) && AllInBounds(bombs, SIDE, SIDE) && Distinct(bombs)
    requires 0 < front <= |queue| && queue[front - 1] !in processed
    requires InsideFill(queue[front - 1..], seeds, bombs, |board|, |board[0]|)
    requires InsideFill(processed, seeds, bombs, |board|, |board[0]|) && Distinct(processed)
    requires Shows(board, shown, processed, bombs)
    requires Frontier(processed, queue[front - 1..], seeds, bombs, |board|, |board[0]|)
    ensures front <= |queue'|
    ensures InsideFill(queue'[front..], seeds, bombs, |board|, |board[0]|)
    ensures InsideFill(processed + [queue[front - 1]], seeds, bombs, |board|, |board[0]|)
    ensures Distinct(processed + [queue[front - 1]])
    ensures Shows(board, shown', processed + [queue[front - 1]], bombs)
    ensures Frontier(processed + [queue[front - 1]], queue'[front..], seeds, bombs, |board|, |board[0]|)
  {
    var height, width := |board|, |board[0]|;
    var pos := queue[front - 1];
    ghost var popped := queue[front - 1..];
    SliceTail(queue, front - 1);
    assert pos == popped[0] && pos in popped;
    assert InBounds(pos, height, width) && pos !in bombs;
    var minesNearby := NeighbourMines(pos, bombs, height, width);
    CountsAgree(pos, bombs, height, width);
    assert minesNearby == MinesAround(pos, bombs, height, width);
    ShowsVisit(board, shown, processed, pos, minesNearby, bombs);
    if minesNearby > 0 {
      shown' := shown[pos.row := shown[pos.row][pos.col := NUMS[minesNearby - 1]]];
      queue' := queue;
      assert queue'[front..] == popped[1..] + [];
    } else {
      shown' := shown[pos.row := shown[pos.row][pos.col := EMPTY]];
      FillStep(seeds, bombs, height, width, pos);
      queue' := EnqueueNeighbourhood(queue, pos, height, width);
      SliceOfAppend(queue, Window(pos, height, width), front);
    }
    VisitKeepsInvariant(processed, popped, queue'[front..], seeds, bombs, height, width);
  }

  /** Reading one entry leaves the unread part without its head. */
  lemma SliceTail(s: seq<Pos>, i: nat)
    requires i < |s|
    ensures s[i..][1..] == s[i + 1..]
  {
  }

  /** The unread part of the queue grows by what is appended. */
  lemma SliceOfAppend(s: seq<Pos>, t: seq<Pos>, i: nat)
    requires i <= |s|
    ensures (s + t)[i..] == s[i..] + t
  {
  }

  /** 64 distinct processed cells are every cell of the 8×8 board, so
      nothing is left for the queue to add. */
  lemma EveryCellProcessed(processed: seq<Pos>, seeds: seq<Pos>, bombs: seq<Pos>)
    requires |processed| >= 64 && Distinct(processed)
    requires InsideFill(processed, seeds, bombs, SIDE, SIDE)
    requires SafeSeeds(seeds, bombs, SIDE, SIDE)
    ensures Frontier(processed, [], seeds, bombs, SIDE, SIDE)
  {
    FullListCoversBoard(processed, SIDE, SIDE);
    forall p | p in processed
      ensures forall q :: q in Window(p, SIDE, SIDE) ==> q in processed
    {
      WindowInBounds(p, SIDE, SIDE);
    }
  }

  /** The port opens no more than src/main.rs would from the same cursor
      and bombs: its only seed is among the seeds of the original. */
  lemma PortRevealsNoMore(cursor: Pos, bombs: seq<Pos>, q: Pos)
    requires InFill(q, [cursor], bombs, SIDE, SIDE)
    ensures InFill(q, RustSweeper.Seeds(cursor, bombs, SIDE, SIDE), bombs, SIDE, SIDE)
  {
    MoreSeedsMoreFill([cursor], RustSweeper.Seeds(cursor, bombs, SIDE, SIDE), bombs, SIDE, SIDE, q);
  }

  /** And sometimes strictly less: with one bomb at (0, 0), revealing
      (1, 1), which shows 1, opens (2, 2) in src/main.rs but not here. */
  lemma PortRevealsLess()
    ensures InFill(Pos(2, 2), RustSweeper.Seeds(Pos(1, 1), [Pos(0, 0)], SIDE, SIDE), [Pos(0, 0)], SIDE, SIDE)
    ensures !InFill(Pos(2, 2), [Pos(1, 1)], [Pos(0, 0)], SIDE, SIDE)
  {
    RustSweeper.NumberedCursorOpensNeighbour(SIDE, SIDE);
    PortStopsAtNumber();
  }

  /** The cursor alone is closed when its count is not zero. */
  lemma PortStopsAtNumber()
    ensures !InFill(Pos(2, 2), [Pos(1, 1)], [Pos(0, 0)], SIDE, SIDE)
  {
    var bombs := [Pos(0, 0)];
    WindowMembers(Pos(1, 1), SIDE, SIDE, Pos(0, 0));
    CountInBounds(Window(Pos(1, 1), SIDE, SIDE), bombs);
    assert MinesAround(Pos(1, 1), bombs, SIDE, SIDE) > 0;
    NumberedCursorStops(Pos(1, 1), bombs, SIDE, SIDE, Pos(2, 2));
  }

  /** Seeded with the cursor alone, the fill opens the cursor and nothing
      else whenever the cursor has a bomb among its neighbours: the port's
      `explore` writes the count there and goes no further. */
  lemma NumberedCursorStops(cursor: Pos, bombs: seq<Pos>, h: nat, w: nat, q: Pos)
    requires InBounds(cursor, h, w) && MinesAround(cursor, bombs, h, w) > 0
    ensures InFill(q, [cursor], bombs, h, w) <==> q == cursor
  {
    assert Closed({cursor}, [cursor], bombs, h, w);
  }

  // ---------------------------------------------------------------------
  // The key switch of `main`
  // ---------------------------------------------------------------------

  /** `(c + 15) % d` is one step back with wrap-around, for every `c` on an
      axis of `d` cells, exactly when `d` divides 16. */
  lemma PlusFifteen(c: nat, d: nat)
    requires c < d
    ensures (c + 15) % d == (if c == 0 then d - 1 else c - 1) <==> 16 % d == 0
  {
    var back := if c == 0 then d - 1 else c - 1;
    if 16 % d == 0 {
      var k := 16 / d;
      assert 16 == k * d;
      assert c + 15 == (if c == 0 then k - 1 else k) * d + back;
      ModUnique(c + 15, if c == 0 then k - 1 else k, back, d);
    } else if (c + 15) % d == back {
      var q := (c + 15) / d;
      assert c + 15 == q * d + back;
      assert 16 == (if c == 0 then q + 1 else q) * d + 0;
      ModUnique(16, if c == 0 then q + 1 else q, 0, d);
    }
  }

  /** The remainder is the unique `r` in `0..d` with `x == q * d + r`. */
  lemma ModUnique(x: int, q: int, r: int, d: int)
    requires d > 0 && 0 <= r < d && x == q * d + r
    ensures x % d == r
  {
    var q', r' := x / d, x % d;
    assert (q - q') * d == r' - r;
    MulBound(q - q', d);
  }

  lemma MulBound(k: int, d: int)
    requires d > 0
    ensures k >= 1 ==> k * d >= d
    ensures k <= -1 ==> k * d <= -d
  {
    assert (k - 1) * d == k * d - d;
    assert (k + 1) * d == k * d + d;
  }

  /** What holds of the port's state between key presses: a valid game on
      the 8×8 board its `explore` accepts. */
  predicate ValidCppGame(g: Game)
  {
    ValidGame(g) && |g.board| == SIDE && |g.board[0]| == SIDE
  }

  /** The `' '` case of the key switch of `main`: a closed cell under the
      cursor is revealed, placing the bombs first on the first reveal of a
      game; any other cell is left alone. */
  method Reveal(g: Game, ticks: nat, fuel: nat) returns (r: StepResult, ticks': nat, ghost drawn: nat)
    requires ValidCppGame(g) && ticks < U32 && g.alive
    ensures r.Next? ==> ValidCppGame(r.game)
    ensures ticks' < U32
    ensures drawn <= fuel && ticks' == SeedAfter(ticks, drawn)
    ensures g.gameStarted ==> ticks' == ticks
    ensures !r.Quit? && (r.Unfinished? ==> !g.gameStarted)
    ensures g.board[g.cursor.row][g.cursor.col] != UNOPENED ==> r == Next(g) && ticks' == ticks
    ensures g.board[g.cursor.row][g.cursor.col] == UNOPENED && r.Next? ==> Revealing(g, r.game, [g.cursor])
    ensures g.board[g.cursor.row][g.cursor.col] == UNOPENED && r.Next? && !g.gameStarted ==>
              && |r.game.bombs| == BOMB_COUNT
              && (forall b :: b in r.game.bombs ==> !TooClose(g.cursor, b))
              && r.game.alive
              && r.game.board[g.cursor.row][g.cursor.col] == EMPTY
  {
    ticks', drawn := ticks, 0;
    var cursor := g.cursor;
    if g.board[cursor.row][cursor.col] != UNOPENED {
      return Next(g), ticks', drawn;
    }
    var bombs := g.bombs;
    if !g.gameStarted {
      var done;
      bombs, ticks', done, drawn := Mines.GenerateMines(g.board, bombs, cursor, ticks, BOMB_COUNT, fuel);
      if !done {
        return Unfinished, ticks', drawn;
      }
      RustSweeper.FirstRevealSafe(g.board, bombs, cursor);
    }
    var board', alive := Explore(g.board, bombs, cursor);
    r := Next(Game(board', bombs, cursor, true, alive));
    if !g.gameStarted {
      SeedShown(g.board, board', [cursor], bombs, cursor);
    }
  }

  /** The body of the `while (true)` loop of `main` for one key press,
      after `++ticks`. `generate_mines` takes `ticks` by reference, so a
      first reveal writes the advanced seed back: `ticks'`, the seed after
      the `drawn` passes of the draw loop. */
  method Step(g: Game, key: Key, ticks: nat, fuel: nat) returns (r: StepResult, ticks': nat, ghost drawn: nat)
    requires ValidCppGame(g) && ticks < U32
    ensures r.Next? ==> ValidCppGame(r.game)
    ensures ticks' < U32
    ensures drawn <= fuel && ticks' == SeedAfter(ticks, drawn)
    ensures !(g.alive && key == Space && !g.gameStarted) ==> ticks' == ticks
    ensures !g.alive ==> r == Next(ResetGame(g, UNOPENED))
    ensures g.alive && key == Esc ==> r == Quit
    ensures r.Quit? ==> g.alive && key == Esc
    ensures r.Unfinished? ==> g.alive && key == Space && !g.gameStarted
    ensures g.alive && key == Up ==>
              r == Next(g.(cursor := g.cursor.(row := if g.cursor.row == 0 then SIDE - 1 else g.cursor.row - 1)))
    ensures g.alive && key == Down ==>
              r == Next(g.(cursor := g.cursor.(row := if g.cursor.row == SIDE - 1 then 0 else g.cursor.row + 1)))
    ensures g.alive && key == Left ==>
              r == Next(g.(cursor := g.cursor.(col := if g.cursor.col == 0 then SIDE - 1 else g.cursor.col - 1)))
    ensures g.alive && key == Right ==>
              r == Next(g.(cursor := g.cursor.(col := if g.cursor.col == SIDE - 1 then 0 else g.cursor.col + 1)))
    ensures g.alive && key == FlagKey ==> r == Next(g.(board := ToggleFlag(g.board, g.cursor, UNOPENED)))
    ensures g.alive && key == Other ==> r == Next(g)
    ensures g.alive && key == Space && g.board[g.cursor.row][g.cursor.col] != UNOPENED ==> r == Next(g)
    ensures g.alive && key == Space && g.board[g.cursor.row][g.cursor.col] == UNOPENED && r.Next? ==>
              Revealing(g, r.game, [g.cursor])
    ensures g.alive && key == Space && g.board[g.cursor.row][g.cursor.col] == UNOPENED && r.Next?
            && !g.gameStarted ==>
              && |r.game.bombs| == BOMB_COUNT
              && (forall b :: b in r.game.bombs ==> !TooClose(g.cursor, b))
              && r.game.alive
              && r.game.board[g.cursor.row][g.cursor.col] == EMPTY
  {
    ticks', drawn := ticks, 0;
    if !g.alive {
      ResetGameValid(g, UNOPENED);
      return Next(ResetGame(g, UNOPENED)), ticks', drawn;
    }
    var height, width := |g.board|, |g.board[0]|;
    var cursor := g.cursor;
    match key {
      case Up =>
        PlusFifteen(cursor.row, height);
        r := Next(g.(cursor := Pos((cursor.row + 15) % height, cursor.col)));
      case Down =>
        StepForward(cursor.row, height);
        r := Next(g.(cursor := Pos((cursor.row + 1) % height, cursor.col)));
      case Left =>
        PlusFifteen(cursor.col, width);
        r := Next(g.(cursor := Pos(cursor.row, (cursor.col + 15) % width)));
      case Right =>
        StepForward(cursor.col, width);
        r := Next(g.(cursor := Pos(cursor.row, (cursor.col + 1) % width)));
      case Space =>
        r, ticks', drawn := Reveal(g, ticks, fuel);
      case FlagKey =>
        r := Next(g.(board := ToggleFlag(g.board, cursor, UNOPENED)));
      case Esc =>
        r := Quit;
      case Other =>
        r := Next(g);
    }
  }
}
