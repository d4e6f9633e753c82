/**
  The `swap` callback's state updater. It copies the board, finds the two
  tiles by their `index` prop, and writes them into each other's slots in an
  order chosen so that the second first-occurrence `indexOf` still finds the
  original slot. It then recomputes the solved flag on the new board.

  Slots of the working copy are `Option<Tile>`: `None` is JavaScript's
  `undefined`, which `find` returns for an unknown id and which the first
  write can briefly put into a slot.
 */
module Swap {
  import opened Seqs
  import opened Board

  datatype Option<T> = None | Some(value: T)

  /** The slot of the first tile whose home is `id`, or -1 when no tile has that home. */
  function SlotOf(board: seq<Tile>, id: int): int {
    IndexOf(Indices(board), id)
  }

  /**
    `Array.prototype.find` on the `index` prop: the first tile whose home is
    `id`, or `undefined` when there is none.
   */
  function Find(board: seq<Tile>, id: int): (r: Option<Tile>)
    ensures r.None? <==> id !in Indices(board)
    ensures r.Some? ==> r.value == board[SlotOf(board, id)]
  {
    if |board| == 0 then None
    else if board[0].index == id then Some(board[0])
    else
      assert Indices(board) == [board[0].index] + Indices(board[1..]);
      Find(board[1..], id)
  }

  /** The spread copy `[...prevPieces]` seen as slots. */
  function Lift(board: seq<Tile>): (slots: seq<Option<Tile>>)
    ensures |slots| == |board|
    ensures forall k | 0 <= k < |board| :: slots[k] == Some(board[k])
  {
    seq(|board|, k requires 0 <= k < |board| => Some(board[k]))
  }

  /** The tiles held by slots that all hold one. */
  function Unlift(slots: seq<Option<Tile>>): (board: seq<Tile>)
    requires forall k | 0 <= k < |slots| :: slots[k].Some?
    ensures Lift(board) == slots
  {
    seq(|slots|, k requires 0 <= k < |slots| => slots[k].value)
  }

  /**
    The assignment `newPieces[k] = v` with `k` from `indexOf`: an index of -1
    sets a property named "-1" rather than a slot, so the slots are unchanged.
   */
  function Store(slots: seq<Option<Tile>>, k: int, v: Option<Tile>): seq<Option<Tile>>
    requires -1 <= k < |slots|
  {
    if k < 0 then slots else slots[k := v]
  }

  /** The writes of the updater, in the order the source performs them. */
  function SwapWrites(board: seq<Tile>, before: int, after: int): seq<Option<Tile>> {
    var pieces := Lift(board);
    var beforeElement := Find(board, before);
    var afterElement := Find(board, after);
    if IndexOf(pieces, beforeElement) < IndexOf(pieces, afterElement) then
      var temp := afterElement;
      var first := Store(pieces, IndexOf(pieces, afterElement), beforeElement);
      Store(first, IndexOf(first, beforeElement), temp)
    else
      var temp := beforeElement;
      var first := Store(pieces, IndexOf(pieces, beforeElement), afterElement);
      Store(first, IndexOf(first, afterElement), temp)
  }

  /**
    The effect the writes are meant to have: when both tiles are on the
    board, their slots are exchanged; otherwise the board is unchanged.
   */
  function Transposed(board: seq<Tile>, before: int, after: int): (r: seq<Tile>)
    ensures |r| == |board|
  {
    if before in Indices(board) && after in Indices(board)
    then Exchange(board, SlotOf(board, before), SlotOf(board, after))
    else board
  }

  /** What the updater hands back: the new pieces and the recomputed `isCorrect` flag. */
  datatype Outcome = Outcome(pieces: seq<Tile>, isCorrect: bool)

  /**
    The updater passed to `setPieces` by `swap(before, after)`. When both
    tiles are on the board it exchanges exactly the slots holding them,
    whichever comes first; when either is missing the pieces come back
    unchanged. The flag is true exactly when the new board is solved.
   */
  function SwapUpdate(board: seq<Tile>, before: int, after: int): (o: Outcome)
    ensures o.pieces == Transposed(board, before, after)
    ensures before in Indices(board) && after in Indices(board) ==>
              var p, q := SlotOf(board, before), SlotOf(board, after);
              o.pieces[p] == board[q] && o.pieces[q] == board[p] &&
              o.pieces[p].index == after && o.pieces[q].index == before &&
              forall k | 0 <= k < |board| && k != p && k != q :: o.pieces[k] == board[k]
    ensures before !in Indices(board) || after !in Indices(board) ==> o.pieces == board
    ensures o.isCorrect <==> Solved(o.pieces)
  {
    SwapWritesTranspose(board, before, after);
    var pieces := Unlift(SwapWrites(board, before, after));
    assert pieces == Transposed(board, before, after);
    Outcome(pieces, IsCorrect(pieces))
  }

  /** `indexOf` finds the first occurrence, so any slot holding `v` with none before it is the answer. */
  lemma IndexOfFirst<T>(s: seq<T>, v: T, m: int)
    requires 0 <= m < |s| && s[m] == v
    requires forall j | 0 <= j < m :: s[j] != v
    ensures IndexOf(s, v) == m
  {
  }

  /**
    After writing `v` into slot `k`, `indexOf(v)` is the earlier slot that
    already held `v` if there is one, and `k` otherwise.
   */
  lemma IndexOfAfterWrite<T>(s: seq<T>, k: int, v: T)
    requires 0 <= k < |s|
    ensures IndexOf(s[k := v], v) == (if 0 <= IndexOf(s, v) < k then IndexOf(s, v) else k)
  {
    var m := IndexOf(s, v);
    if 0 <= m < k {
      IndexOfFirst(s[k := v], v, m);
    } else {
      IndexOfFirst(s[k := v], v, k);
    }
  }

  /** In the copy, `indexOf(find(id))` is the slot of the tile with home `id`, or -1. */
  lemma IndexOfFound(board: seq<Tile>, id: int)
    ensures IndexOf(Lift(board), Find(board, id)) == SlotOf(board, id)
  {
    var m := SlotOf(board, id);
    if m >= 0 {
      forall j | 0 <= j < m ensures Lift(board)[j] != Find(board, id) {
        assert Indices(board)[j] != id;
      }
      IndexOfFirst(Lift(board), Find(board, id), m);
    } else {
      assert None !in Lift(board);
    }
  }

  /** The writes when `before` sits in an earlier slot than `after` (or is missing). */
  lemma WritesBeforeFirst(board: seq<Tile>, before: int, after: int)
    requires SlotOf(board, before) < SlotOf(board, after)
    ensures SwapWrites(board, before, after) == Lift(Transposed(board, before, after))
  {
    var pieces := Lift(board);
    var m, n := SlotOf(board, before), SlotOf(board, after);
    var b, a := Find(board, before), Find(board, after);
    IndexOfFound(board, before);
    IndexOfFound(board, after);
    var first := pieces[n := b];
    IndexOfAfterWrite(pieces, n, b);
    if m >= 0 {
      assert IndexOf(first, b) == m;
      assert first[m := a] == Lift(Exchange(board, m, n));
    } else {
      assert IndexOf(pieces, b) == -1;
      assert IndexOf(first, b) == n;
      assert first[n := a] == pieces;
    }
  }

  /** The writes when `after` sits in an earlier slot than `before`, in the same slot, or either is missing. */
  lemma WritesAfterFirst(board: seq<Tile>, before: int, after: int)
    requires SlotOf(board, before) >= SlotOf(board, after)
    ensures SwapWrites(board, before, after) == Lift(Transposed(board, before, after))
  {
    var pieces := Lift(board);
    var m, n := SlotOf(board, before), SlotOf(board, after);
    var b, a := Find(board, before), Find(board, after);
    IndexOfFound(board, before);
    IndexOfFound(board, after);
    if m >= 0 {
      var first := pieces[m := a];
      IndexOfAfterWrite(pieces, m, a);
      if n == m {
        assert before == after;
        assert first == pieces;
        assert Exchange(board, m, m) == board;
      } else if n >= 0 {
        assert IndexOf(first, a) == n;
        assert first[n := b] == Lift(Exchange(board, m, n));
      } else {
        assert IndexOf(first, a) == m;
        assert first[m := b] == pieces;
      }
    }
  }

  /**
    The source's write order achieves the intended effect: the slots after
    the writes are exactly the board with the two tiles exchanged, or the
    unchanged board when a tile is missing. In particular no slot is left
    holding `undefined`.
   */
  lemma SwapWritesTranspose(board: seq<Tile>, before: int, after: int)
    ensures SwapWrites(board, before, after) == Lift(Transposed(board, before, after))
  {
    if SlotOf(board, before) < SlotOf(board, after) {
      WritesBeforeFirst(board, before, after);
    } else {
      WritesAfterFirst(board, before, after);
    }
  }

  /** Swapping `a` with `b` and swapping `b` with `a` give the same outcome. */
  lemma SwapSymmetric(board: seq<Tile>, a: int, b: int)
    ensures SwapUpdate(board, a, b) == SwapUpdate(board, b, a)
  {
    if a in Indices(board) && b in Indices(board) {
      ExchangeSymmetric(board, SlotOf(board, a), SlotOf(board, b));
    }
  }

  /** Dropping a tile onto itself leaves the pieces unchanged. */
  lemma SwapSelf(board: seq<Tile>, a: int)
    ensures SwapUpdate(board, a, a).pieces == board
  {
  }

  /** A swap only rearranges the tiles: none is created, lost or duplicated. */
  lemma SwapPreservesTiles(board: seq<Tile>, before: int, after: int)
    ensures multiset(SwapUpdate(board, before, after).pieces) == multiset(board)
  {
    if before in Indices(board) && after in Indices(board) {
      ExchangePreservesMultiset(board, SlotOf(board, before), SlotOf(board, after));
    }
  }

  /** A swap keeps the board invariant: the home slots stay exactly `0 .. |board| - 1`. */
  lemma SwapPreservesArrangement(board: seq<Tile>, before: int, after: int)
    requires IsArrangement(board)
    ensures IsArrangement(SwapUpdate(board, before, after).pieces)
  {
    if before in Indices(board) && after in Indices(board) {
      ExchangePreservesArrangement(board, SlotOf(board, before), SlotOf(board, after));
    }
  }

  /**
    On a board whose home slots are distinct, the dragged tile lands in the
    slot the target tile held, and the target tile in the dragged tile's.
   */
  lemma SwapMovesBothTiles(board: seq<Tile>, before: int, after: int)
    requires Distinct(Indices(board))
    requires before in Indices(board) && after in Indices(board)
    ensures var next := SwapUpdate(board, before, after).pieces;
            SlotOf(next, before) == SlotOf(board, after) &&
            SlotOf(next, after) == SlotOf(board, before)
  {
    var p, q := SlotOf(board, before), SlotOf(board, after);
    var next := SwapUpdate(board, before, after).pieces;
    IndicesOfExchange(board, p, q);
    ExchangePreservesDistinct(Indices(board), p, q);
    assert Indices(next) == Exchange(Indices(board), p, q);
    IndexOfDistinct(Indices(next), q);
    IndexOfDistinct(Indices(next), p);
  }

  /**
    On a board whose home slots are distinct, repeating the same swap
    restores the original board.
   */
  lemma SwapTwiceRestores(board: seq<Tile>, before: int, after: int)
    requires Distinct(Indices(board))
    ensures SwapUpdate(SwapUpdate(board, before, after).pieces, before, after).pieces == board
  {
    if before in Indices(board) && after in Indices(board) {
      var p, q := SlotOf(board, before), SlotOf(board, after);
      var next := SwapUpdate(board, before, after).pieces;
      SwapMovesBothTiles(board, before, after);
      assert before in Indices(next) && after in Indices(next) by {
        assert Indices(next)[q] == before && Indices(next)[p] == after;
      }
      assert next == Exchange(board, p, q);
      ExchangeSymmetric(board, p, q);
      ExchangeInvolutive(board, q, p);
    }
  }

  /**
    The flag is recomputed from the board even when nothing moves: a swap
    with an unknown id on a solved board reports it solved again.
   */
  lemma UnknownIdRecomputesFlag(board: seq<Tile>, before: int, after: int)
    requires before !in Indices(board) || after !in Indices(board)
    ensures SwapUpdate(board, before, after) == Outcome(board, Solved(board))
  {
  }
}
