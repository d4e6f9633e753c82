/**
  The page's board over its lifetime: the mount effect builds the nine tiles
  and shuffles them, and every drop afterwards applies one swap. The board
  invariant holds throughout, and every board the page can show can be put
  back in order by drops.
 */
module Game {
  import opened Seqs
  import opened FisherYates
  import opened Board
  import opened Swap

  /** Listing home slots commutes with the shuffle's steps. */
  lemma {:induction false} IndicesOfShuffleDown(board: seq<Tile>, choices: seq<int>, i: int)
    requires i < |board| && |choices| == |board| && ChoicesInRange(choices, i)
    ensures Indices(ShuffleDown(board, choices, i)) == ShuffleDown(Indices(board), choices, i)
    decreases i
  {
    if i > 0 {
      IndicesOfExchange(board, i, choices[i]);
      IndicesOfShuffleDown(Exchange(board, i, choices[i]), choices, i - 1);
    }
  }

  /**
    The mount effect: the row-major tiles passed through `shuffleArray`.
    The result holds the nine initial tiles, each once, in some order, so
    the board invariant holds from the start.
   */
  function Mount(choices: seq<int>): (board: seq<Tile>)
    requires ValidChoices(choices, 9)
    ensures |board| == 9
    ensures multiset(board) == multiset(InitialTiles())
    ensures IsArrangement(board)
  {
    var init := InitialTiles();
    InitialTilesLayout();
    var board := Shuffle(init, choices);
    IndicesOfShuffleDown(init, choices, 8);
    ShuffleDownPreservesMultiset(Indices(init), choices, 8);
    assert multiset(Indices(board)) == multiset(Indices(init)) == multiset(Range(9));
    board
  }

  /** Every order of the nine tiles is a possible result of mounting. */
  lemma MountReachesEveryOrder(board: seq<Tile>) returns (choices: seq<int>)
    requires multiset(board) == multiset(InitialTiles())
    ensures ValidChoices(choices, 9)
    ensures Mount(choices) == board
  {
    InitialTilesLayout();
    choices := ShuffleReachesEveryOrder(InitialTiles(), board);
  }

  /** The board after a series of drops, each a `(dragged id, target id)` pair handed to `swap`. */
  function Play(board: seq<Tile>, drops: seq<(int, int)>): seq<Tile>
    decreases |drops|
  {
    if |drops| == 0 then board
    else Play(SwapUpdate(board, drops[0].0, drops[0].1).pieces, drops[1..])
  }

  /** Drops only rearrange: the tiles and the board invariant survive any series of them. */
  lemma {:induction false} PlayPreservesArrangement(board: seq<Tile>, drops: seq<(int, int)>)
    requires IsArrangement(board)
    ensures multiset(Play(board, drops)) == multiset(board)
    ensures IsArrangement(Play(board, drops))
    decreases |drops|
  {
    if |drops| > 0 {
      var next := SwapUpdate(board, drops[0].0, drops[0].1).pieces;
      SwapPreservesTiles(board, drops[0].0, drops[0].1);
      SwapPreservesArrangement(board, drops[0].0, drops[0].1);
      PlayPreservesArrangement(next, drops[1..]);
    }
  }

  /** Every board reached from a mount by drops still holds the nine tiles, each once. */
  lemma ReachableBoardsAreArrangements(choices: seq<int>, drops: seq<(int, int)>)
    requires ValidChoices(choices, 9)
    ensures var board := Play(Mount(choices), drops);
            |board| == 9 && IsArrangement(board) && multiset(board) == multiset(InitialTiles())
  {
    PlayPreservesArrangement(Mount(choices), drops);
  }

  /** One drop of the sorting strategy puts the tile with home `p` into slot `p`. */
  lemma PlaceTile(board: seq<Tile>, p: int)
    requires IsArrangement(board) && 0 <= p < |board|
    requires forall k | 0 <= k < p :: board[k].index == k
    requires board[p].index != p
    ensures var next := SwapUpdate(board, board[p].index, p).pieces;
            IsArrangement(next) && next[p].index == p &&
            forall k | 0 <= k < p :: next[k] == board[k]
  {
    var r := board[p].index;
    var q := SlotOf(board, p);
    MisplacedTile(board, p);
    var next := SwapUpdate(board, r, p).pieces;
    assert next == Exchange(board, p, q);
    SwapPreservesArrangement(board, r, p);
  }

  /**
    While slots before `p` are in place and slot `p` is not, the tile in slot
    `p` is found there by its id, and the tile with home `p` sits after `p`.
   */
  lemma MisplacedTile(board: seq<Tile>, p: int)
    requires IsArrangement(board) && 0 <= p < |board|
    requires forall k | 0 <= k < p :: board[k].index == k
    requires board[p].index != p
    ensures p in Indices(board) && board[p].index in Indices(board)
    ensures SlotOf(board, board[p].index) == p
    ensures p < SlotOf(board, p)
  {
    var ids := Indices(board);
    ArrangementDistinct(board);
    assert Range(|board|)[p] == p;
    assert p in multiset(ids);
    IndexOfDistinct(ids, p);
    assert ids[SlotOf(board, p)] == p;
  }

  /** The sorting strategy from slot `p` on, when the slots before `p` are already in place. */
  lemma {:induction false} SolveFrom(board: seq<Tile>, p: int) returns (drops: seq<(int, int)>)
    requires IsArrangement(board) && 0 <= p <= |board|
    requires forall k | 0 <= k < p :: board[k].index == k
    ensures Solved(Play(board, drops))
    decreases |board| - p
  {
    if p == |board| {
      drops := [];
    } else if board[p].index == p {
      drops := SolveFrom(board, p + 1);
    } else {
      var drop := (board[p].index, p);
      PlaceTile(board, p);
      var next := SwapUpdate(board, drop.0, drop.1).pieces;
      var rest := SolveFrom(next, p + 1);
      drops := [drop] + rest;
      assert drops[1..] == rest;
    }
  }

  /** Every arrangement, in particular every shuffled board, can be solved by drops. */
  lemma EveryArrangementSolvable(board: seq<Tile>) returns (drops: seq<(int, int)>)
    requires IsArrangement(board)
    ensures Solved(Play(board, drops))
  {
    drops := SolveFrom(board, 0);
  }

  /**
    The board with only its first two tiles exchanged is not solved, and
    dropping tile 0 onto tile 1 restores the initial order with the flag set.
   */
  lemma FirstTwoExchanged()
    ensures |InitialTiles()| == 9
    ensures Indices(Exchange(InitialTiles(), 0, 1)) == [1, 0, 2, 3, 4, 5, 6, 7, 8]
    ensures !Solved(Exchange(InitialTiles(), 0, 1))
    ensures SwapUpdate(Exchange(InitialTiles(), 0, 1), 0, 1) == Outcome(InitialTiles(), true)
  {
    InitialTilesLayout();
    var init := InitialTiles();
    var board := Exchange(init, 0, 1);
    IndicesOfExchange(init, 0, 1);
    assert Indices(board) == [1, 0, 2, 3, 4, 5, 6, 7, 8];
    OneTranspositionFromSolved(init, 0, 1);
    ArrangementDistinct(init);
    ExchangePreservesDistinct(Indices(init), 0, 1);
    IndexOfDistinct(Indices(board), 0);
    IndexOfDistinct(Indices(board), 1);
    assert SlotOf(board, 0) == 1 && SlotOf(board, 1) == 0;
    ExchangeInvolutive(init, 0, 1);
    ExchangeSymmetric(board, 0, 1);
  }
}
