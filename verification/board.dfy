/**
  The tiles of the puzzle page and the board they form: the row-major
  construction of the 3 x 3 grid, the solved check run after every swap,
  and the board invariant that the home slots are exactly `0 .. |board| - 1`.
 */
module Board {
  import opened Seqs

  /** Tiles per side of the grid. */
  const PIECES: nat := 3

  /** The row stride of the tile formula `x + y * 3`, written there as a literal rather than as `PIECES`. */
  const STRIDE: int := 3

  /**
    The props of one tile: its column `x`, its row `y`, and `index`, the slot
    it belongs in. `index` is also the tile's DOM id, so it is the identifier
    a drag-and-drop hands to the swap.
   */
  datatype Tile = Tile(x: int, y: int, index: int)

  /** Row `y` of the grid: `n` tiles, column by column. */
  function Row(y: int, n: nat, stride: int): seq<Tile> {
    seq(n, x => Tile(x, y, x + y * stride))
  }

  /** `n` rows of `n` tiles each, joined row after row. */
  function Grid(n: nat, stride: int): seq<Tile> {
    Flatten(seq(n, y => Row(y, n, stride)))
  }

  /** The tiles the page builds on mount, before shuffling. */
  function InitialTiles(): seq<Tile> {
    Grid(PIECES, STRIDE)
  }

  /** The home slot of each tile, slot by slot. */
  function Indices(board: seq<Tile>): (ids: seq<int>)
    ensures |ids| == |board|
    ensures forall p | 0 <= p < |board| :: ids[p] == board[p].index
  {
    seq(|board|, p requires 0 <= p < |board| => board[p].index)
  }

  /** The slots `0 .. n - 1` in order. */
  function Range(n: nat): seq<int> {
    seq(n, k => k)
  }

  /** Solved: every slot `p` holds the tile whose home is `p`. */
  predicate Solved(board: seq<Tile>) {
    forall p | 0 <= p < |board| :: board[p].index == p
  }

  /** The board invariant: the home slots on the board are exactly `0 .. |board| - 1`, each once. */
  predicate IsArrangement(board: seq<Tile>) {
    multiset(Indices(board)) == multiset(Range(|board|))
  }

  /** The `every` scan of the solved check from slot `k` to the end. */
  function EveryInPlaceFrom(board: seq<Tile>, k: nat): (r: bool)
    requires k <= |board|
    ensures r <==> forall p | k <= p < |board| :: board[p].index == p
    decreases |board| - k
  {
    k == |board| || (board[k].index == k && EveryInPlaceFrom(board, k + 1))
  }

  /**
    The flag the swap recomputes: `every((piece, index) => piece.props.index === index)`.
    It is true exactly on solved boards.
   */
  function IsCorrect(board: seq<Tile>): (r: bool)
    ensures r <==> Solved(board)
  {
    EveryInPlaceFrom(board, 0)
  }

  lemma MulMonotone(a: nat, b: nat, n: nat)
    requires a <= b
    ensures a * n <= b * n
  {
  }

  /**
    The grid is laid out row-major: when the stride equals the side `n`, it
    has `n * n` tiles and the tile in slot `k` sits in column `k % n` and row
    `k / n` and has home slot `k`.
   */
  lemma GridRowMajor(n: nat, k: int)
    requires 0 <= k < n * n
    ensures |Grid(n, n)| == n * n
    ensures Grid(n, n)[k] == Tile(k % n, k / n, k)
  {
    var rows := seq(n, y => Row(y, n, n));
    var x, y := k % n, k / n;
    assert k == y * n + x;
    assert y < n by {
      if y >= n {
        MulMonotone(n, y, n);
      }
    }
    FlattenUniformLength(rows, n);
    FlattenUniformAt(rows, n, y, x);
    assert rows[y][x] == Tile(x, y, x + y * n);
  }

  /** The unshuffled grid of any side `n` is solved, and its home slots are `0 .. n * n - 1`. */
  lemma GridSolved(n: nat)
    ensures |Grid(n, n)| == n * n
    ensures Indices(Grid(n, n)) == Range(n * n)
    ensures Solved(Grid(n, n))
  {
    var g := Grid(n, n);
    var rows := seq(n, y => Row(y, n, n));
    FlattenUniformLength(rows, n);
    forall k | 0 <= k < n * n ensures g[k].index == k {
      GridRowMajor(n, k);
    }
  }

  /**
    The page's initial tiles: nine of them, tile `k` in column `k % 3` and
    row `k / 3` with home slot `k`, so the unshuffled board is solved.
   */
  lemma InitialTilesLayout()
    ensures |InitialTiles()| == 9
    ensures forall k | 0 <= k < 9 :: InitialTiles()[k] == Tile(k % 3, k / 3, k)
    ensures Indices(InitialTiles()) == Range(9)
    ensures Solved(InitialTiles()) && IsArrangement(InitialTiles())
  {
    assert InitialTiles() == Grid(3, 3);
    GridSolved(3);
    forall k | 0 <= k < 9 ensures InitialTiles()[k] == Tile(k % 3, k / 3, k) {
      GridRowMajor(3, k);
    }
  }

  /** A solved board is an arrangement: its home slots are exactly its slots. */
  lemma SolvedIsArrangement(board: seq<Tile>)
    requires Solved(board)
    ensures Indices(board) == Range(|board|)
    ensures IsArrangement(board)
  {
  }

  /** On an arrangement no home slot is held by two tiles. */
  lemma ArrangementDistinct(board: seq<Tile>)
    requires IsArrangement(board)
    ensures Distinct(Indices(board))
    ensures forall p | 0 <= p < |board| :: 0 <= board[p].index < |board|
  {
    DistinctOfSameMultiset(Indices(board), Range(|board|));
    forall p | 0 <= p < |board| ensures 0 <= board[p].index < |board| {
      assert Indices(board)[p] in multiset(Range(|board|));
    }
  }

  /** Exchanging two tiles exchanges their home slots in the list of home slots. */
  lemma IndicesOfExchange(board: seq<Tile>, p: int, q: int)
    requires 0 <= p < |board| && 0 <= q < |board|
    ensures Indices(Exchange(board, p, q)) == Exchange(Indices(board), p, q)
  {
  }

  /** Exchanging two tiles keeps the board an arrangement. */
  lemma ExchangePreservesArrangement(board: seq<Tile>, p: int, q: int)
    requires IsArrangement(board) && 0 <= p < |board| && 0 <= q < |board|
    ensures IsArrangement(Exchange(board, p, q))
  {
    IndicesOfExchange(board, p, q);
    ExchangePreservesMultiset(Indices(board), p, q);
  }

  /** A board one transposition away from a solved board is not solved. */
  lemma OneTranspositionFromSolved(board: seq<Tile>, p: int, q: int)
    requires Solved(board) && 0 <= p < |board| && 0 <= q < |board|
    ensures Solved(Exchange(board, p, q)) <==> p == q
  {
    if p != q {
      assert Exchange(board, p, q)[p].index == q;
    }
  }
}
