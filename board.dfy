/** Grid geometry, cell faces and mine counting shared by the Rust game
    (src/main.rs) and its C++ port (cppcode.cpp). */
module Board {

  /** A board position: `row` is the source's `pos[0]` (y), `col` its `pos[1]` (x). */
  datatype Pos = Pos(row: nat, col: nat)

  const MINE: char := 'X'
  const EMPTY: char := ' '
  const FLAG: char := 'P'
  const NUMS: seq<char> := ['1', '2', '3', '4', '5', '6', '7', '8']

  predicate InBounds(p: Pos, h: nat, w: nat)
  {
    p.row < h && p.col < w
  }

  /** `board` has `h` rows of `w` cells each. */
  predicate IsGrid(board: seq<seq<char>>, h: nat, w: nat)
  {
    |board| == h && forall r :: 0 <= r < h ==> |board[r]| == w
  }

  /** A non-empty rectangular board; its size is read as `board.len()` × `board[0].len()`. */
  predicate ValidBoard(board: seq<seq<char>>)
  {
    |board| >= 1 && |board[0]| >= 1 && IsGrid(board, |board|, |board[0]|)
  }

  predicate AllInBounds(ps: seq<Pos>, h: nat, w: nat)
  {
    forall i :: 0 <= i < |ps| ==> InBounds(ps[i], h, w)
  }

  predicate Distinct(ps: seq<Pos>)
  {
    forall i, j :: 0 <= i < j < |ps| ==> ps[i] != ps[j]
  }

  function Abs(n: int): nat
  {
    if n < 0 then -n else n
  }

  /** `cursor_too_close`: both coordinate distances are below 2. */
  function TooClose(cursor: Pos, p: Pos): (r: bool)
    ensures r <==> cursor.row <= p.row + 1 && p.row <= cursor.row + 1
                   && cursor.col <= p.col + 1 && p.col <= cursor.col + 1
  {
    var range := 2;
    var xDiff := Abs(cursor.col - p.col);
    var yDiff := Abs(cursor.row - p.row);
    xDiff < range && yDiff < range
  }

  lemma TooCloseSymmetric(c: Pos, p: Pos)
    ensures TooClose(c, p) == TooClose(p, c)
    ensures TooClose(c, c)
  {
  }

  // ---------------------------------------------------------------------
  // The clamped 3×3 window, in the row-major order of the source's loops
  // ---------------------------------------------------------------------

  /** `lower_y_bound` / `lower_x_bound` */
  function Lower(c: nat): nat
  {
    if c == 0 then 0 else c - 1
  }

  /** `upper_y_bound` / `upper_x_bound` */
  function Upper(c: nat, n: nat): nat
  {
    if c == n - 1 then n - 1 else c + 1
  }

  /** Positions (y, x0), …, (y, x1), left to right. */
  function RowSpan(y: nat, x0: nat, x1: int): seq<Pos>
    decreases x1 - x0
  {
    if x1 < x0 then [] else RowSpan(y, x0, x1 - 1) + [Pos(y, x1)]
  }

  /** Rows y0..y1 of columns x0..x1, row by row. */
  function Block(y0: nat, y1: int, x0: nat, x1: int): seq<Pos>
    decreases y1 - y0
  {
    if y1 < y0 then [] else Block(y0, y1 - 1, x0, x1) + RowSpan(y1, x0, x1)
  }

  /** The cells the nested `for y in lower..=upper { for x in … }` loops visit. */
  function Window(p: Pos, h: nat, w: nat): seq<Pos>
  {
    Block(Lower(p.row), Upper(p.row, h), Lower(p.col), Upper(p.col, w))
  }

  lemma {:induction false} RowSpanMembers(y: nat, x0: nat, x1: int, q: Pos)
    ensures q in RowSpan(y, x0, x1) <==> q.row == y && x0 <= q.col <= x1
    ensures |RowSpan(y, x0, x1)| == if x1 < x0 then 0 else x1 - x0 + 1
    decreases x1 - x0
  {
    if x0 <= x1 {
      RowSpanMembers(y, x0, x1 - 1, q);
    }
  }

  lemma {:induction false} BlockMembers(y0: nat, y1: int, x0: nat, x1: int, q: Pos)
    ensures q in Block(y0, y1, x0, x1) <==> y0 <= q.row <= y1 && x0 <= q.col <= x1
    decreases y1 - y0
  {
    if y0 <= y1 {
      BlockMembers(y0, y1 - 1, x0, x1, q);
      RowSpanMembers(y1, x0, x1, q);
    }
  }

  lemma {:induction false} BlockSize(y0: nat, y1: int, x0: nat, x1: int)
    requires x1 - x0 <= 2
    ensures |Block(y0, y1, x0, x1)| <= 3 * (if y1 < y0 then 0 else y1 - y0 + 1)
    decreases y1 - y0
  {
    if y0 <= y1 {
      BlockSize(y0, y1 - 1, x0, x1);
      RowSpanMembers(y1, x0, x1, Pos(0, 0));
    }
  }

  /** The window around an in-bounds position is exactly the set of in-bounds
      positions too close to it, and it has at most nine cells. */
  lemma WindowMembers(p: Pos, h: nat, w: nat, q: Pos)
    requires InBounds(p, h, w)
    ensures q in Window(p, h, w) <==> InBounds(q, h, w) && TooClose(p, q)
    ensures p in Window(p, h, w)
    ensures |Window(p, h, w)| <= 9
  {
    BlockMembers(Lower(p.row), Upper(p.row, h), Lower(p.col), Upper(p.col, w), q);
    BlockMembers(Lower(p.row), Upper(p.row, h), Lower(p.col), Upper(p.col, w), p);
    BlockSize(Lower(p.row), Upper(p.row, h), Lower(p.col), Upper(p.col, w));
  }

  /** Every window cell is on the board. */
  lemma WindowInBounds(p: Pos, h: nat, w: nat)
    requires InBounds(p, h, w)
    ensures forall q :: q in Window(p, h, w) ==> InBounds(q, h, w)
  {
    forall q | q in Window(p, h, w)
      ensures InBounds(q, h, w)
    {
      WindowMembers(p, h, w, q);
    }
  }

  // ---------------------------------------------------------------------
  // Counting the mines of a window (`get_mines_around`)
  // ---------------------------------------------------------------------

  /** How many cells of `s` occur in `bombs` (the `bombs.contains` test, once per cell). */
  function CountIn(s: seq<Pos>, bombs: seq<Pos>): nat
  {
    if s == [] then 0
    else CountIn(s[..|s| - 1], bombs) + (if s[|s| - 1] in bombs then 1 else 0)
  }

  lemma {:induction false} CountInAppend(a: seq<Pos>, b: seq<Pos>, bombs: seq<Pos>)
    ensures CountIn(a + b, bombs) == CountIn(a, bombs) + CountIn(b, bombs)
    decreases |b|
  {
    if b != [] {
      assert (a + b)[..|a + b| - 1] == a + b[..|b| - 1];
      CountInAppend(a, b[..|b| - 1], bombs);
    } else {
      assert a + b == a;
    }
  }

  lemma CountInSnoc(s: seq<Pos>, p: Pos, bombs: seq<Pos>)
    ensures CountIn(s + [p], bombs) == CountIn(s, bombs) + (if p in bombs then 1 else 0)
  {
    assert (s + [p])[..|s|] == s;
  }

  /** The count is at most the number of cells, is zero exactly when no cell
      is a bomb, and misses at least one when some cell is not a bomb. */
  lemma {:induction false} CountInBounds(s: seq<Pos>, bombs: seq<Pos>)
    ensures CountIn(s, bombs) <= |s|
    ensures CountIn(s, bombs) == 0 <==> forall q :: q in s ==> q !in bombs
    ensures (exists q :: q in s && q !in bombs) ==> CountIn(s, bombs) < |s|
  {
    if s != [] {
      var init, last := s[..|s| - 1], s[|s| - 1];
      CountInBounds(init, bombs);
      assert s == init + [last];
      assert forall q :: q in s <==> q in init || q == last;
      assert CountIn(s, bombs) == CountIn(init, bombs) + (if last in bombs then 1 else 0);
      if last in bombs {
        assert (exists q :: q in s && q !in bombs) ==> exists q :: q in init && q !in bombs;
      }
    }
  }

  /** `get_mines_around`: the number of cells of the clamped 3×3 window
      around `p`, `p` included, that hold a bomb. */
  function MinesAround(p: Pos, bombs: seq<Pos>, h: nat, w: nat): nat
  {
    CountIn(Window(p, h, w), bombs)
  }

  /** The count is 0..9, never more than the window, and at most 8 around a
      cell that is not itself a bomb. */
  lemma MinesAroundBounds(p: Pos, bombs: seq<Pos>, h: nat, w: nat)
    requires InBounds(p, h, w)
    ensures MinesAround(p, bombs, h, w) <= |Window(p, h, w)| <= 9
    ensures p !in bombs ==> MinesAround(p, bombs, h, w) <= 8
  {
    WindowMembers(p, h, w, p);
    CountInBounds(Window(p, h, w), bombs);
  }

  /** A count of zero means that no cell of the board too close to `p` is a bomb, and conversely. */
  lemma MinesAroundZero(p: Pos, bombs: seq<Pos>, h: nat, w: nat)
    requires InBounds(p, h, w)
    ensures MinesAround(p, bombs, h, w) == 0
        <==> forall q :: InBounds(q, h, w) && TooClose(p, q) ==> q !in bombs
  {
    CountInBounds(Window(p, h, w), bombs);
    forall q ensures q in Window(p, h, w) <==> InBounds(q, h, w) && TooClose(p, q) {
      WindowMembers(p, h, w, q);
    }
  }

  /** `get_mines_around` as the source writes it: two nested range loops
      over the clamped window, testing `bombs.contains` for each cell. */
  method GetMinesAround(pos: Pos, bombs: seq<Pos>, height: nat, width: nat) returns (minesNearby: nat)
    requires InBounds(pos, height, width)
    ensures minesNearby == MinesAround(pos, bombs, height, width)
  {
    var lowerY, upperY := Lower(pos.row), Upper(pos.row, height);
    var lowerX, upperX := Lower(pos.col), Upper(pos.col, width);
    minesNearby := 0;
    var y: int := lowerY;
    while y <= upperY
      invariant lowerY <= y <= upperY + 1
      invariant minesNearby == CountIn(Block(lowerY, y - 1, lowerX, upperX), bombs)
    {
      var inRow := CountRow(y, lowerX, upperX, bombs);
      minesNearby := minesNearby + inRow;
      CountInAppend(Block(lowerY, y - 1, lowerX, upperX), RowSpan(y, lowerX, upperX), bombs);
      assert minesNearby == CountIn(Block(lowerY, y, lowerX, upperX), bombs);
      y := y + 1;
    }
  }

  /** The inner `for x in lower_x_bound..=upper_x_bound` loop of `get_mines_around`. */
  method CountRow(y: nat, lowerX: nat, upperX: nat, bombs: seq<Pos>) returns (inRow: nat)
    ensures inRow == CountIn(RowSpan(y, lowerX, upperX), bombs)
  {
    inRow := 0;
    var x: int := lowerX;
    while x <= upperX
      invariant lowerX <= x <= upperX + 1 || (upperX < lowerX && x == lowerX)
      invariant inRow == CountIn(RowSpan(y, lowerX, x - 1), bombs)
    {
      CountInSnoc(RowSpan(y, lowerX, x - 1), Pos(y, x), bombs);
      if Pos(y, x) in bombs {
        inRow := inRow + 1;
      }
      assert inRow == CountIn(RowSpan(y, lowerX, x), bombs);
      x := x + 1;
    }
  }

  /** The `for y … { for x … { queue.push_back([y, x]) } }` loops that queue
      the whole clamped window, the cell itself included, in row-major order. */
  method EnqueueWindow(queue: seq<Pos>, pos: Pos, height: nat, width: nat) returns (queue': seq<Pos>)
    ensures queue' == queue + Window(pos, height, width)
  {
    var lowerY, upperY := Lower(pos.row), Upper(pos.row, height);
    var lowerX, upperX := Lower(pos.col), Upper(pos.col, width);
    queue' := queue;
    var y: int := lowerY;
    while y <= upperY
      invariant lowerY <= y <= upperY + 1
      invariant queue' == queue + Block(lowerY, y - 1, lowerX, upperX)
    {
      var x: int := lowerX;
      while x <= upperX
        invariant lowerX <= x <= upperX + 1
        invariant queue' == queue + Block(lowerY, y - 1, lowerX, upperX) + RowSpan(y, lowerX, x - 1)
      {
        queue' := queue' + [Pos(y, x)];
        x := x + 1;
      }
      y := y + 1;
    }
  }

  /** A revealed cell shows EMPTY for a count of zero and `NUMS[count - 1]` otherwise. */
  predicate IsFace(ch: char, count: nat)
  {
    (count == 0 && ch == EMPTY) || (1 <= count <= 8 && ch == NUMS[count - 1])
  }

  // ---------------------------------------------------------------------
  // The main loop's state and its keys
  // ---------------------------------------------------------------------

  /** The locals of `main` that a key press updates. */
  datatype Game = Game(board: seq<seq<char>>, bombs: seq<Pos>, cursor: Pos, gameStarted: bool, alive: bool)

  /** The key events `main` distinguishes; `FlagKey` is `Char('f')`, `Space` is `Char(' ')`. */
  datatype Key = Up | Down | Left | Right | Space | FlagKey | Esc | Other

  /** What one pass of the event loop leads to: the next state, the exit on
      Esc, or a first reveal whose mine generation did not finish within
      the draws allowed (the program would still be drawing). */
  datatype StepResult = Next(game: Game) | Quit | Unfinished

  /** What holds of the game state between key presses: the cursor and
      every bomb on the board, no bomb twice, and no bomb before the first reveal. */
  predicate ValidGame(g: Game)
  {
    && ValidBoard(g.board)
    && InBounds(g.cursor, |g.board|, |g.board[0]|)
    && AllInBounds(g.bombs, |g.board|, |g.board[0]|)
    && Distinct(g.bombs)
    && (!g.gameStarted ==> g.bombs == [])
  }

  /** `reset_game`: a board of the same size, all `unopened`, no bombs, not
      started, alive; the cursor is kept. */
  function ResetGame(g: Game, unopened: char): (r: Game)
    requires ValidBoard(g.board)
    ensures IsGrid(r.board, |g.board|, |g.board[0]|)
    ensures forall i, j :: 0 <= i < |g.board| && 0 <= j < |g.board[0]| ==> r.board[i][j] == unopened
    ensures r.bombs == [] && !r.gameStarted && r.alive && r.cursor == g.cursor
  {
    Game(Filled(|g.board|, |g.board[0]|, unopened), [], g.cursor, false, true)
  }

  /** A reset keeps a valid game valid, and resetting twice is resetting once. */
  lemma ResetGameValid(g: Game, unopened: char)
    requires ValidGame(g)
    ensures ValidGame(ResetGame(g, unopened))
    ensures ResetGame(ResetGame(g, unopened), unopened) == ResetGame(g, unopened)
  {
    var r := ResetGame(g, unopened);
    assert |r.board[0]| == |g.board[0]|;
  }

  /** One step back along an axis of `n` cells, wrapping from 0 to n - 1,
      is what `(c + n - 1) % n` computes. */
  lemma StepBack(c: nat, n: nat)
    requires c < n
    ensures (c + n - 1) % n == if c == 0 then n - 1 else c - 1
  {
    if c == 0 {
      assert (n - 1) % n == n - 1;
    } else {
      assert c + n - 1 == (c - 1) + n;
      assert ((c - 1) + n) % n == c - 1;
    }
  }

  /** One step forward, wrapping from n - 1 to 0, is `(c + 1) % n`. */
  lemma StepForward(c: nat, n: nat)
    requires c < n
    ensures (c + 1) % n == if c == n - 1 then 0 else c + 1
  {
  }

  // ---------------------------------------------------------------------
  // Board edits
  // ---------------------------------------------------------------------

  /** The loss branch of `explore`: every bomb's cell becomes MINE. */
  method RevealMines(board: seq<seq<char>>, bombs: seq<Pos>) returns (board': seq<seq<char>>)
    requires ValidBoard(board) && AllInBounds(bombs, |board|, |board[0]|)
    ensures IsGrid(board', |board|, |board[0]|)
    ensures forall r, c :: 0 <= r < |board| && 0 <= c < |board[0]| ==>
              board'[r][c] == if Pos(r, c) in bombs then MINE else board[r][c]
  {
    board' := board;
    var i := 0;
    while i < |bombs|
      invariant 0 <= i <= |bombs|
      invariant IsGrid(board', |board|, |board[0]|)
      invariant forall r, c :: 0 <= r < |board| && 0 <= c < |board[0]| ==>
                  board'[r][c] == if Pos(r, c) in bombs[..i] then MINE else board[r][c]
    {
      var bomb := bombs[i];
      board' := board'[bomb.row := board'[bomb.row][bomb.col := MINE]];
      assert bombs[..i + 1] == bombs[..i] + [bomb];
      i := i + 1;
    }
    assert bombs[..i] == bombs;
  }

  /** The 'f' key: an unopened cell becomes a flag, a flag becomes unopened,
      every other cell value is left alone. */
  function ToggleFlag(board: seq<seq<char>>, p: Pos, unopened: char): (r: seq<seq<char>>)
    requires ValidBoard(board) && InBounds(p, |board|, |board[0]|)
    ensures IsGrid(r, |board|, |board[0]|)
    ensures forall q :: InBounds(q, |board|, |board[0]|) && q != p ==> r[q.row][q.col] == board[q.row][q.col]
    ensures board[p.row][p.col] == unopened ==> r[p.row][p.col] == FLAG
    ensures board[p.row][p.col] == FLAG && unopened != FLAG ==> r[p.row][p.col] == unopened
    ensures board[p.row][p.col] != unopened && board[p.row][p.col] != FLAG ==> r == board
  {
    var cell := board[p.row][p.col];
    if cell == unopened then board[p.row := board[p.row][p.col := FLAG]]
    else if cell == FLAG then board[p.row := board[p.row][p.col := unopened]]
    else board
  }

  /** Flagging and unflagging returns the board to what it was. */
  lemma ToggleFlagTwice(board: seq<seq<char>>, p: Pos, unopened: char)
    requires ValidBoard(board) && InBounds(p, |board|, |board[0]|)
    requires unopened != FLAG
    ensures ToggleFlag(ToggleFlag(board, p, unopened), p, unopened) == board
  {
    var once := ToggleFlag(board, p, unopened);
    var twice := ToggleFlag(once, p, unopened);
    assert |twice| == |board|;
    forall r | 0 <= r < |board|
      ensures twice[r] == board[r]
    {
      assert |twice[r]| == |board[r]|;
      forall c | 0 <= c < |board[r]|
        ensures twice[r][c] == board[r][c]
      {
        if Pos(r, c) != p {
          assert InBounds(Pos(r, c), |board|, |board[0]|);
        }
      }
    }
  }

  /** A fresh `h` × `w` board of `fill` cells. */
  function Filled(h: nat, w: nat, fill: char): (r: seq<seq<char>>)
    ensures IsGrid(r, h, w)
    ensures forall i, j :: 0 <= i < h && 0 <= j < w ==> r[i][j] == fill
  {
    seq(h, _ => seq(w, _ => fill))
  }

  // ---------------------------------------------------------------------
  // The cells of a board, and how many there are
  // ---------------------------------------------------------------------

  function Cells(h: nat, w: nat): set<Pos>
  {
    set r: nat, c: nat | r < h && c < w :: Pos(r, c)
  }

  /** The cells of row `r`. */
  function RowCells(r: nat, w: nat): set<Pos>
  {
    set c: nat | c < w :: Pos(r, c)
  }

  lemma {:induction false} RowCellsCard(r: nat, w: nat)
    ensures |RowCells(r, w)| == w
  {
    if w > 0 {
      RowCellsCard(r, w - 1);
      assert RowCells(r, w) == RowCells(r, w - 1) + {Pos(r, w - 1)};
    } else {
      assert RowCells(r, w) == {};
    }
  }

  lemma {:induction false} CellsCard(h: nat, w: nat)
    ensures |Cells(h, w)| == h * w
  {
    if h > 0 {
      CellsCard(h - 1, w);
      RowCellsCard(h - 1, w);
      CellsSplit(h, w);
      assert h * w == (h - 1) * w + w;
    } else {
      assert Cells(h, w) == {};
    }
  }

  /** The cells of `h` rows are those of the first `h - 1` rows plus,
      disjointly, the last row. */
  lemma CellsSplit(h: nat, w: nat)
    requires h > 0
    ensures Cells(h, w) == Cells(h - 1, w) + RowCells(h - 1, w)
    ensures Cells(h - 1, w) * RowCells(h - 1, w) == {}
  {
    forall q | q in Cells(h, w)
      ensures q in Cells(h - 1, w) + RowCells(h - 1, w)
    {
      if q.row < h - 1 {
        assert q in Cells(h - 1, w);
      } else {
        assert q in RowCells(h - 1, w);
      }
    }
  }

  lemma {:induction false} DistinctCard(s: seq<Pos>)
    requires Distinct(s)
    ensures |set q | q in s| == |s|
  {
    if s != [] {
      var init := s[..|s| - 1];
      DistinctCard(init);
      assert s == init + [s[|s| - 1]];
      assert (set q | q in s) == (set q | q in init) + {s[|s| - 1]};
      assert s[|s| - 1] !in init;
    } else {
      assert (set q | q in s) == {};
    }
  }

  /** A subset at least as large as its superset is all of it. */
  lemma SubsetOfSameSize<T>(a: set<T>, b: set<T>)
    requires a <= b && |a| >= |b|
    ensures a == b
  {
    var missing := b - a;
    assert b == a + missing;
    assert a * missing == {};
    assert |missing| == 0;
  }

  /** A duplicate-free list of in-bounds positions that is as long as the
      board has cells holds every cell of the board. */
  lemma FullListCoversBoard(s: seq<Pos>, h: nat, w: nat)
    requires Distinct(s) && AllInBounds(s, h, w) && |s| >= h * w
    ensures forall q :: InBounds(q, h, w) ==> q in s
  {
    var seen := set q | q in s;
    DistinctCard(s);
    CellsCard(h, w);
    forall q | q in seen
      ensures q in Cells(h, w)
    {
      var i :| 0 <= i < |s| && s[i] == q;
      assert InBounds(s[i], h, w);
    }
    SubsetOfSameSize(seen, Cells(h, w));
    forall q | InBounds(q, h, w)
      ensures q in s
    {
      assert q in Cells(h, w);
    }
  }
}
