/** `generate_mines`: rejection sampling of bomb positions. The Rust
    program asks for 50 bombs and the C++ port for 30; the count is a
    parameter here. */
module Mines {
  import opened Board
  import opened Rng

  /** Draws positions from the seed until `bombs` holds `bombCount`
      entries, skipping a draw too close to `cursor` or already present.
      The source loop need not end (seed 0 repeats (0, 0) forever), so
      `fuel` bounds the number of draws and `done` reports whether the
      count was reached; every other postcondition holds either way.
      `seed'` is the seed after the last draw, `drawn` passes of the loop
      after `seed`: the C++ port writes it back to the caller, the Rust
      program drops it. */
  method GenerateMines(board: seq<seq<char>>, bombs: seq<Pos>, cursor: Pos, seed: nat,
                       bombCount: nat, fuel: nat)
    returns (bombs': seq<Pos>, seed': nat, done: bool, ghost drawn: nat)
    requires ValidBoard(board) && seed < U32
    ensures seed' < U32
    ensures drawn <= fuel && seed' == SeedAfter(seed, drawn)
    ensures !done ==> drawn == fuel
    ensures done <==> |bombs'| >= bombCount
    ensures |bombs| <= |bombs'| && bombs'[..|bombs|] == bombs
    ensures |bombs| <= bombCount ==> |bombs'| <= bombCount
    ensures forall i :: |bombs| <= i < |bombs'| ==>
              InBounds(bombs'[i], |board|, |board[0]|) && !TooClose(cursor, bombs'[i])
    ensures forall i, j :: 0 <= i < j < |bombs'| && |bombs| <= j ==> bombs'[i] != bombs'[j]
  {
    bombs' := bombs;
    seed' := seed;
    var draws := fuel;
    while |bombs'| < bombCount && draws > 0
      invariant seed' < U32
      invariant 0 <= draws <= fuel && seed' == SeedAfter(seed, fuel - draws)
      invariant |bombs| <= |bombs'| && bombs'[..|bombs|] == bombs
      invariant |bombs| <= bombCount ==> |bombs'| <= bombCount
      invariant forall i :: |bombs| <= i < |bombs'| ==>
                  InBounds(bombs'[i], |board|, |board[0]|) && !TooClose(cursor, bombs'[i])
      invariant forall i, j :: 0 <= i < j < |bombs'| && |bombs| <= j ==> bombs'[i] != bombs'[j]
      decreases draws
    {
      draws := draws - 1;
      seed' := RegenRandom(seed');
      var x := seed' % |board[0]|;
      seed' := RegenRandom(seed');
      var y := seed' % |board|;
      if TooClose(cursor, Pos(y, x)) || Pos(y, x) in bombs' {
        continue;
      }
      bombs' := bombs' + [Pos(y, x)];
    }
    done := |bombs'| >= bombCount;
    drawn := fuel - draws;
  }
}
