/** What a successful `explore` reveals, stated without its queue, and the
    facts its breadth-first loop keeps. Both programs fill from a list of
    seed cells: src/main.rs seeds with the cursor and the zero-count cells
    of its window, cppcode.cpp with the cursor alone. */
module Fill {
  import opened Board

  /** A set the fill cannot leave: it holds every seed, and with every
      in-bounds cell of count zero it holds that cell's whole window. */
  ghost predicate Closed(S: set<Pos>, seeds: seq<Pos>, bombs: seq<Pos>, h: nat, w: nat)
  {
    && (forall q :: q in seeds ==> q in S)
    && (forall p :: p in S && InBounds(p, h, w) && MinesAround(p, bombs, h, w) == 0 ==>
          forall q :: q in Window(p, h, w) ==> q in S)
  }

  /** The cells a successful reveal opens: those in every closed set, that
      is, in the least one. */
  ghost predicate InFill(q: Pos, seeds: seq<Pos>, bombs: seq<Pos>, h: nat, w: nat)
  {
    forall S :: Closed(S, seeds, bombs, h, w) ==> q in S
  }

  /** Every seed is an in-bounds cell that is not a bomb. */
  predicate SafeSeeds(seeds: seq<Pos>, bombs: seq<Pos>, h: nat, w: nat)
  {
    forall q :: q in seeds ==> InBounds(q, h, w) && q !in bombs
  }

  /** The outcome of a successful reveal: each cell of the fill shows its
      count, every other cell is as it was. */
  ghost predicate Revealed(board: seq<seq<char>>, board': seq<seq<char>>, seeds: seq<Pos>, bombs: seq<Pos>)
    requires ValidBoard(board)
  {
    && IsGrid(board', |board|, |board[0]|)
    && forall r, c :: 0 <= r < |board| && 0 <= c < |board[0]| ==>
         if InFill(Pos(r, c), seeds, bombs, |board|, |board[0]|)
         then IsFace(board'[r][c], MinesAround(Pos(r, c), bombs, |board|, |board[0]|))
         else board'[r][c] == board[r][c]
  }

  /** The outcome of stepping on a bomb: every bomb cell shows MINE, every
      other cell is as it was. */
  predicate MinesShown(board: seq<seq<char>>, board': seq<seq<char>>, bombs: seq<Pos>)
    requires ValidBoard(board)
  {
    && IsGrid(board', |board|, |board[0]|)
    && forall r, c :: 0 <= r < |board| && 0 <= c < |board[0]| ==>
         board'[r][c] == if Pos(r, c) in bombs then MINE else board[r][c]
  }

  /** A Space press on an unopened cell, filling from `seeds`: the bombs
      are those of `g`, or freshly generated if the game had not started;
      the game is started; and the board is what `explore` leaves, on a
      successful reveal or a loss. */
  ghost predicate Revealing(g: Game, g': Game, seeds: seq<Pos>)
    requires ValidGame(g)
  {
    && g'.cursor == g.cursor && g'.gameStarted
    && (g.gameStarted ==> g'.bombs == g.bombs)
    && (g'.alive <==> g.cursor !in g'.bombs)
    && (g'.alive ==> Revealed(g.board, g'.board, seeds, g'.bombs))
    && (!g'.alive ==> MinesShown(g.board, g'.board, g'.bombs))
  }

  /** The fill stays on the board and never reaches a bomb: the in-bounds
      non-bomb cells form a closed set. */
  lemma FillAvoidsBombs(seeds: seq<Pos>, bombs: seq<Pos>, h: nat, w: nat, q: Pos)
    requires SafeSeeds(seeds, bombs, h, w)
    requires InFill(q, seeds, bombs, h, w)
    ensures InBounds(q, h, w) && q !in bombs
  {
    var safe := set p | p in Cells(h, w) && p !in bombs;
    forall p | p in seeds
      ensures p in safe
    {
      assert p in Cells(h, w);
    }
    forall p | p in safe && InBounds(p, h, w) && MinesAround(p, bombs, h, w) == 0
      ensures forall q :: q in Window(p, h, w) ==> q in safe
    {
      WindowInBounds(p, h, w);
      CountInBounds(Window(p, h, w), bombs);
    }
    assert Closed(safe, seeds, bombs, h, w);
  }

  /** A seed on the board is opened by a successful reveal and shows its count. */
  lemma SeedShown(board: seq<seq<char>>, board': seq<seq<char>>, seeds: seq<Pos>, bombs: seq<Pos>, q: Pos)
    requires ValidBoard(board) && InBounds(q, |board|, |board[0]|) && q in seeds
    requires Revealed(board, board', seeds, bombs)
    ensures IsFace(board'[q.row][q.col], MinesAround(q, bombs, |board|, |board[0]|))
  {
    assert InFill(q, seeds, bombs, |board|, |board[0]|);
  }

  /** More seeds fill at least as much. */
  lemma MoreSeedsMoreFill(seeds: seq<Pos>, more: seq<Pos>, bombs: seq<Pos>, h: nat, w: nat, q: Pos)
    requires forall p :: p in seeds ==> p in more
    requires InFill(q, seeds, bombs, h, w)
    ensures InFill(q, more, bombs, h, w)
  {
    forall S | Closed(S, more, bombs, h, w)
      ensures q in S
    {
      assert Closed(S, seeds, bombs, h, w);
    }
  }

  // ---------------------------------------------------------------------
  // The facts the breadth-first loop keeps
  // ---------------------------------------------------------------------

  /** Every entry is an in-bounds non-bomb cell of the fill. */
  ghost predicate InsideFill(s: seq<Pos>, seeds: seq<Pos>, bombs: seq<Pos>, h: nat, w: nat)
  {
    forall q :: q in s ==> InBounds(q, h, w) && q !in bombs && InFill(q, seeds, bombs, h, w)
  }

  /** Nothing the fill must reach is lost: every seed, and every cell of
      the window of a processed cell of count zero, is processed or queued. */
  ghost predicate Frontier(processed: seq<Pos>, queue: seq<Pos>, seeds: seq<Pos>, bombs: seq<Pos>, h: nat, w: nat)
  {
    && (forall q :: q in seeds ==> q in processed || q in queue)
    && (forall p :: p in processed && MinesAround(p, bombs, h, w) == 0 ==>
          forall q :: q in Window(p, h, w) ==> q in processed || q in queue)
  }

  /** `board'` shows the count of each processed cell and is `board` elsewhere. */
  predicate Shows(board: seq<seq<char>>, board': seq<seq<char>>, processed: seq<Pos>, bombs: seq<Pos>)
    requires ValidBoard(board)
  {
    && IsGrid(board', |board|, |board[0]|)
    && forall r, c :: 0 <= r < |board| && 0 <= c < |board[0]| ==>
         if Pos(r, c) in processed
         then IsFace(board'[r][c], MinesAround(Pos(r, c), bombs, |board|, |board[0]|))
         else board'[r][c] == board[r][c]
  }

  /** The loop starts with the seeds queued inside the fill. */
  lemma SeedsInFill(seeds: seq<Pos>, bombs: seq<Pos>, h: nat, w: nat)
    requires SafeSeeds(seeds, bombs, h, w)
    ensures InsideFill(seeds, seeds, bombs, h, w)
    ensures Frontier([], seeds, seeds, bombs, h, w)
  {
  }

  /** The fill is closed under opening the window of a cell of count zero. */
  lemma FillStep(seeds: seq<Pos>, bombs: seq<Pos>, h: nat, w: nat, p: Pos)
    requires InFill(p, seeds, bombs, h, w) && InBounds(p, h, w)
    requires MinesAround(p, bombs, h, w) == 0
    ensures InsideFill(Window(p, h, w), seeds, bombs, h, w)
  {
    WindowInBounds(p, h, w);
    CountInBounds(Window(p, h, w), bombs);
    forall q | q in Window(p, h, w)
      ensures InFill(q, seeds, bombs, h, w)
    {
      forall S | Closed(S, seeds, bombs, h, w)
        ensures q in S
      {
        assert p in S;
      }
    }
  }

  /** Popping an already processed position keeps the loop's facts. */
  lemma PopProcessed(processed: seq<Pos>, popped: seq<Pos>, seeds: seq<Pos>, bombs: seq<Pos>, h: nat, w: nat)
    requires popped != [] && popped[0] in processed
    requires InsideFill(popped, seeds, bombs, h, w)
    requires Frontier(processed, popped, seeds, bombs, h, w)
    ensures InsideFill(popped[1..], seeds, bombs, h, w)
    ensures Frontier(processed, popped[1..], seeds, bombs, h, w)
  {
    assert forall q :: q in popped ==> q == popped[0] || q in popped[1..];
  }

  /** Processing the popped position `popped[0]` keeps the loop's facts,
      where `queue` is the rest of the queue followed, when the count is
      zero, by the window. */
  lemma VisitKeepsInvariant(processed: seq<Pos>, popped: seq<Pos>, queue: seq<Pos>,
                            seeds: seq<Pos>, bombs: seq<Pos>, h: nat, w: nat)
    requires popped != [] && popped[0] !in processed
    requires InsideFill(popped, seeds, bombs, h, w)
    requires InsideFill(processed, seeds, bombs, h, w) && Distinct(processed)
    requires Frontier(processed, popped, seeds, bombs, h, w)
    requires queue == popped[1..] + (if MinesAround(popped[0], bombs, h, w) == 0
                                     then Window(popped[0], h, w) else [])
    requires MinesAround(popped[0], bombs, h, w) == 0 ==> InsideFill(Window(popped[0], h, w), seeds, bombs, h, w)
    ensures InsideFill(queue, seeds, bombs, h, w)
    ensures InsideFill(processed + [popped[0]], seeds, bombs, h, w)
    ensures Distinct(processed + [popped[0]])
    ensures Frontier(processed + [popped[0]], queue, seeds, bombs, h, w)
  {
    var pos := popped[0];
    assert forall q :: q in popped ==> q == pos || q in popped[1..];
    assert forall q :: q in processed + [pos] <==> q in processed || q == pos;
    assert forall q :: q in queue <==> (q in popped[1..] ||
      (MinesAround(pos, bombs, h, w) == 0 && q in Window(pos, h, w)));
  }

  /** Adding an unprocessed cell of the board shrinks the unprocessed rest. */
  lemma VisitShrinks(processed: seq<Pos>, pos: Pos, h: nat, w: nat)
    requires pos !in processed && InBounds(pos, h, w)
    ensures Cells(h, w) - (set q | q in processed + [pos]) < Cells(h, w) - (set q | q in processed)
  {
    assert pos in Cells(h, w) - (set q | q in processed);
  }

  /** Writing the face of `pos` extends what the board shows by `pos`. */
  lemma ShowsVisit(board: seq<seq<char>>, board': seq<seq<char>>, processed: seq<Pos>, pos: Pos,
                   count: nat, bombs: seq<Pos>)
    requires ValidBoard(board) && Shows(board, board', processed, bombs)
    requires InBounds(pos, |board|, |board[0]|) && count <= 8
    requires count == MinesAround(pos, bombs, |board|, |board[0]|)
    ensures Shows(board, board'[pos.row := board'[pos.row][pos.col := if count > 0 then NUMS[count - 1] else EMPTY]],
                  processed + [pos], bombs)
  {
  }

  /** When nothing is left to queue the processed cells are exactly the fill. */
  lemma FillIsProcessed(processed: seq<Pos>, seeds: seq<Pos>, bombs: seq<Pos>, h: nat, w: nat)
    requires InsideFill(processed, seeds, bombs, h, w)
    requires Frontier(processed, [], seeds, bombs, h, w)
    ensures forall q :: InFill(q, seeds, bombs, h, w) <==> q in processed
  {
    var fill := set q | q in processed;
    assert Closed(fill, seeds, bombs, h, w);
  }

  /** What the board shows once the processed cells are exactly the fill:
      `Revealed`, and no bomb cell written. */
  lemma ShowsFill(board: seq<seq<char>>, board': seq<seq<char>>, processed: seq<Pos>, seeds: seq<Pos>, bombs: seq<Pos>)
    requires ValidBoard(board) && Shows(board, board', processed, bombs)
    requires InsideFill(processed, seeds, bombs, |board|, |board[0]|)
    requires forall q :: InFill(q, seeds, bombs, |board|, |board[0]|) <==> q in processed
    ensures Revealed(board, board', seeds, bombs)
    ensures forall i :: 0 <= i < |bombs| && InBounds(bombs[i], |board|, |board[0]|) ==>
              board'[bombs[i].row][bombs[i].col] == board[bombs[i].row][bombs[i].col]
  {
    forall i | 0 <= i < |bombs| && InBounds(bombs[i], |board|, |board[0]|)
      ensures board'[bombs[i].row][bombs[i].col] == board[bombs[i].row][bombs[i].col]
    {
      assert bombs[i] !in processed;
    }
  }
}
