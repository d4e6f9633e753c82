# Image puzzle board: a Dafny model

The page cuts an image into a 3 x 3 grid of canvas tiles and shuffles them.
The player drags one tile onto another to exchange the two, and the page
reports completion once every tile is back in its home slot. This project
models the page's board logic as pure functions and proves what it does:

- `shuffleArray` is Durstenfeld's in-place Fisher-Yates shuffle (Knuth, The
  Art of Computer Programming Vol. 2, section 3.4.2, Algorithm P). It copies
  its argument, then for `i` from the last slot down to 1 exchanges slot `i`
  with a slot drawn from `[0, i]`.
- The mount effect builds the nine tiles row by row with
  `index = x + y * 3` and shuffles them.
- The `swap(before, after)` updater finds the two tiles by their `index`
  prop. It writes each into the other's slot with JavaScript's
  first-occurrence `indexOf`, then recomputes the solved flag with `every`.

Modules:

- `Seqs` (seqs.dfy) holds the shared sequence vocabulary: `Exchange`,
  JavaScript `indexOf`, distinctness and `flatMap`.
- `FisherYates` (shuffle.dfy) holds the shuffle.
- `Board` (board.dfy) holds the tiles, the grid and the solved check.
- `Swap` (swap.dfy) holds the swap updater, modelled write by write.
- `Game` (game.dfy) holds the mount followed by a series of drops.

A tile is the record `Tile(x, y, index)`. `index` is both the tile's home slot
and its DOM id (src/pages/index.tsx:49, 140), so a drop hands `swap` two
tile indices. During the swap, the working copy's slots are `Option<Tile>`,
where `None` stands for `undefined`. `find` returns `undefined` for an
unknown id, and the first write can briefly leave it in a slot. Writing at
index -1 (what `indexOf` returns for a missing value) changes no slot,
because JavaScript stores a property named "-1" that the spread copy ignores.

`Math.random()` is replaced by parameters. `ShuffleArray` takes one draw in
`[0, 1)` per step and computes `floor(draw * (i + 1))` in exact real
arithmetic. The pure `Shuffle` takes the drawn slots themselves, where
`choices[i]` is the slot drawn at step `i` and `choices[0]` is never used.

Two facts about the code shape the model:

- The DOM id of a tile is its home `index` (src/pages/index.tsx:49, 140),
  which never changes. It is not the tile's current slot.
- A swap with an unknown id leaves the board unchanged, but it still
  recomputes the flag from that board (src/pages/index.tsx:40-41). On a
  solved board the flag is therefore set again
  (`Swap.UnknownIdRecomputesFlag`).

## Model

| member | source | states |
|---|---|---|
| `Seqs.Exchange` | src/pages/index.tsx:14 | the destructuring swap puts `s[j]` in slot `i` and `s[i]` in slot `j` and leaves every other slot alone |
| `Seqs.ExchangePreservesMultiset` | src/pages/index.tsx:14 | one exchange neither creates nor loses a value |
| `Seqs.IndexOf` | src/pages/index.tsx:30-37 | `indexOf` is -1 exactly when the value is absent, and otherwise the first slot holding it |
| `FisherYates.Pick` | src/pages/index.tsx:13 | `Math.floor(Math.random() * (i + 1))` lies in `[0, i]` for a draw in `[0, 1)` |
| `FisherYates.PickCovers` | src/pages/index.tsx:13 | every slot in `[0, i]` is drawn by some random value |
| `FisherYates.ChoicesOf` | src/pages/index.tsx:12-13 | the draws of one run give a valid slot for every step `i >= 1` |
| `FisherYates.ShuffleDown` | src/pages/index.tsx:12-15 | the loop from step `i` down to 1 keeps the length |
| `FisherYates.ShuffleDownPreservesMultiset` | src/pages/index.tsx:12-15 | the loop only rearranges its values |
| `FisherYates.Shuffle` | src/pages/index.tsx:8-18 | the result has the input's length and multiset, and inputs of length 0 or 1 come back unchanged |
| `FisherYates.ShuffleArray` | src/pages/index.tsx:8-18 | the loop over a copy of the argument computes `Shuffle` of the argument and the drawn slots, a permutation of the argument |
| `FisherYates.ShuffleStayingPut` | src/pages/index.tsx:12-14 | a run in which every step draws `j = i` returns its input unchanged |
| `FisherYates.ShuffleDownKeepsAbove` | src/pages/index.tsx:12-14 | steps `i` down to 1 never touch a slot above `i` |
| `FisherYates.ShuffleDownSettles` | src/pages/index.tsx:12-14 | after step `i`, slot `i` keeps the value drawn for it for the rest of the run |
| `FisherYates.ShuffleReachesEveryOrder` | src/pages/index.tsx:8-18 | every rearrangement of the input is the result of some sequence of valid drawn slots |
| `FisherYates.ShuffleInjective` | src/pages/index.tsx:8-18 | on distinct values, equal results come from equal drawn slots at every step, so sequences of drawn slots and orders correspond one to one |
| `Board.EveryInPlaceFrom` | src/pages/index.tsx:40 | the `every` scan from slot `k` is true iff each later slot `p` holds the tile with home `p` |
| `Board.IsCorrect` | src/pages/index.tsx:40 | the recomputed flag is true iff every slot `p` holds the tile with home `p` |
| `Board.GridRowMajor` | src/pages/index.tsx:47-51 | when the stride equals the side `n`, the grid has `n * n` tiles and slot `k` holds column `k % n`, row `k / n`, home `k` |
| `Board.GridSolved` | src/pages/index.tsx:47-51 | the unshuffled grid of any side is solved and its homes are exactly `0 .. n*n - 1` in order |
| `Board.InitialTilesLayout` | src/pages/index.tsx:47-51 | the page builds 9 tiles, tile `k` at column `k % 3`, row `k / 3`, home `k`; the homes are `0..8` once each and the unshuffled board is solved |
| `Board.SolvedIsArrangement` | src/pages/index.tsx:40 | a solved board lists its slots as its homes |
| `Board.ArrangementDistinct` | src/pages/index.tsx:27-28 | when the homes are exactly the slots, no two tiles share an id and every id names a slot |
| `Board.IndicesOfExchange` | src/pages/index.tsx:30-38 | exchanging two tiles exchanges their ids in the list of ids |
| `Board.ExchangePreservesArrangement` | src/pages/index.tsx:30-38 | exchanging two tiles keeps the homes exactly the slots |
| `Board.OneTranspositionFromSolved` | src/pages/index.tsx:40 | a solved board with two distinct slots exchanged is not solved |
| `Swap.Find` | src/pages/index.tsx:27-28 | `find` yields `undefined` iff no tile has the id, and otherwise the first tile with it |
| `Swap.IndexOfFirst` | src/pages/index.tsx:30-37 | a slot holding the value with no earlier one is what `indexOf` returns |
| `Swap.IndexOfAfterWrite` | src/pages/index.tsx:32-37 | after the first write, `indexOf` of the written value is its earlier original slot if there is one, and the written slot otherwise |
| `Swap.IndexOfFound` | src/pages/index.tsx:27-30 | in the copy, `indexOf(find(id))` is the slot of the tile with that id, or -1 |
| `Swap.WritesBeforeFirst` | src/pages/index.tsx:30-33 | when `before` sits earlier (or is missing), the two writes exchange the two tiles or leave the slots as they were |
| `Swap.WritesAfterFirst` | src/pages/index.tsx:34-38 | when `after` sits earlier, in the same slot, or either is missing, the two writes exchange the tiles or leave the slots as they were |
| `Swap.SwapWritesTranspose` | src/pages/index.tsx:25-38 | whatever the order of the slots, the writes leave exactly the board with the two tiles exchanged, or the unchanged board if either id is unknown, and no `undefined` slot |
| `Swap.SwapUpdate` | src/pages/index.tsx:24-43 | the updater exchanges exactly the slots holding `before` and `after` and keeps every other slot; with an unknown id it returns the same pieces; its flag is true iff the new board is solved |
| `Swap.SwapSymmetric` | src/pages/index.tsx:27-38 | `swap(a, b)` and `swap(b, a)` give the same outcome |
| `Swap.SwapSelf` | src/pages/index.tsx:34-38 | dropping a tile on itself leaves the pieces unchanged |
| `Swap.SwapPreservesTiles` | src/pages/index.tsx:27-42 | a swap keeps the multiset of tiles |
| `Swap.SwapPreservesArrangement` | src/pages/index.tsx:27-42 | a swap keeps the homes exactly the slots `0 .. n - 1` of an `n`-slot board |
| `Swap.SwapMovesBothTiles` | src/pages/index.tsx:131-136 | on distinct ids, the dragged tile ends in the target's slot and the target tile in the dragged tile's |
| `Swap.SwapTwiceRestores` | src/pages/index.tsx:27-38 | on distinct ids, applying the same swap twice restores the board |
| `Swap.UnknownIdRecomputesFlag` | src/pages/index.tsx:40-42 | with an unknown id the pieces are unchanged and the flag is recomputed as "is this board solved" |
| `Game.IndicesOfShuffleDown` | src/pages/index.tsx:12-15 | shuffling tiles shuffles their ids the same way |
| `Game.Mount` | src/pages/index.tsx:46-53 | the mounted board holds the nine initial tiles once each, so its homes are exactly `0..8` |
| `Game.MountReachesEveryOrder` | src/pages/index.tsx:46-53 | every order of the nine tiles is a possible mounted board |
| `Game.PlayPreservesArrangement` | src/pages/index.tsx:24-43 | any series of drops keeps the tiles and the homes-are-the-slots invariant |
| `Game.ReachableBoardsAreArrangements` | src/pages/index.tsx:46-53 | every board reached from a mount by drops holds the nine tiles once each |
| `Game.MisplacedTile` | src/pages/index.tsx:27-30 | while slots before `p` are sorted and slot `p` is not, the tile with home `p` lies after `p` |
| `Game.PlaceTile` | src/pages/index.tsx:24-43 | dropping the tile in slot `p` onto tile `p` puts tile `p` in place and keeps the earlier slots and the invariant |
| `Game.SolveFrom` | src/pages/index.tsx:24-43 | with slots before `p` sorted, some series of drops solves the board |
| `Game.EveryArrangementSolvable` | src/pages/index.tsx:24-43 | every board whose homes are its slots can be solved by drops |
| `Game.FirstTwoExchanged` | src/pages/index.tsx:24-43 | the board `[1, 0, 2, ..., 8]` is not solved, and `swap(0, 1)` turns it into the initial board with the flag set |

## Left out

- React state and hooks (`useState`, `useCallback`, `useEffect`) are left out. They schedule work rather than compute anything. The updater is modelled as a pure function from the previous pieces to the new pieces plus the flag.
- The deferred `alert` and the reset of `isCorrect` after 100 ms (src/pages/index.tsx:55-62) are left out. They are timer and UI behaviour.
- Canvas drawing and image loading (src/pages/index.tsx:87-120) are left out. They are browser API calls with fractional canvas sizes.
- The drag handlers and the `Number(...)` parsing of DOM ids (src/pages/index.tsx:122-136) are left out. A drop is modelled as the two integer ids handed to `swap`.
- `Math.random()` is replaced by injected draws. Statistical uniformity is not proved: `PickCovers` only shows that every slot can be drawn, not that each is drawn equally often. `ShuffleReachesEveryOrder` and `ShuffleInjective` prove the one-to-one match between sequences of drawn slots and orders.
- FisherYates.Pick: uses exact real multiplication, not IEEE double rounding. Under IEEE rounding the slot still lies in `[0, i]`, but it can differ from the model's slot when a draw's exact product lies just below an integer: rounding to nearest can lift the product onto that integer (for example a draw of 6004799503160661 / 2^53 at step 2 gives slot 2 in JavaScript and slot 1 here). On such draws `ShuffleArray` names a different order from the page's. Every proved shuffle fact holds for any sequence of valid slots, so none of them depends on this.
- Element identity in `indexOf` is modelled as equality of `Tile` records. This equals object identity for every board the page can reach, since its nine tiles are distinct.
- Swap.SwapTwiceRestores and Swap.SwapMovesBothTiles: they require distinct ids. With duplicate ids the first-occurrence lookups can pick different tiles on the second swap. The page never builds such a board (`Game.ReachableBoardsAreArrangements`).
