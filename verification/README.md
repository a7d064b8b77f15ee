# Tiles layout core, in Dafny

This project models the two pieces of layout logic in the Drupal Tiles module.

- **Server side** (`TilesContainer`):
  - `wrapRegion` packs a region's blocks into rows of at most `max_cols_per_row` columns. It makes one greedy pass from left to right.
  - `renderPage` merges a container's blocks into the page's regions, restores Block-module weights and sets the `#sorted` flag.
- **Client side** (`tiles.js`):
  - `regionManifest` snapshots the tiles of one region into a manifest. Weights are contiguous, and a `blockIndex` maps each `module-delta` key to a position.
  - `moveLeft` and `moveRight` exchange the clicked tile's weight with a neighbour's weight.
  - `widthPlus` and `widthMinus` step the tile's width through the configured width steps.

Each mutator returns either the manifest it would post to the server or the error that stops it. The error is a boundary alert, or the TypeError the handler would throw on a missing block.

Files and modules:

| file | module | what |
|---|---|---|
| `wrappers.dfy` | `Wrappers` | `Option` and `Result` |
| `render_array.dfy` | `RenderArray` | region children: `#block`, `#weight`, `#theme_wrappers` |
| `row_packer.dfy` | `RowPacker` | `wrapRegion` and the greedy-packing predicate |
| `render_page.dfy` | `PageRender` | the region merge of `renderPage` |
| `manifest.dfy` | `Manifests` | the manifest and `regionManifest` |
| `mutators.dfy` | `Mutators` | `moveLeft`, `moveRight`, `widthPlus`, `widthMinus` |

Modelling choices:

- **Packer inputs.** `wrapRegion` takes the region's children already ordered, as `element_children` returns them. It also takes the column budget as an integer, because `tiles_get_max_step` is a host call.
- **Packer contract.** `RowPacker.GreedyPacking` states what the packer produces. `row_0` always exists and holds only blocks that fit from a zero column count. Every later row is non-empty. Every later row starts with a block that would have overflowed the row before it, and the rest of its blocks fit. `GreedyPackingUnique` proves that at most one row layout meets this description. So the contract of `WrapRegion` determines its rows exactly.
- **Row representation.** Row `k` is represented by its position, which is the PHP key `row_k`. The theme wrapper `tiles_row` on every row and `tiles_region` on the rows container are constant and are not carried.
- **Manifest input.** The DOM scan becomes a list of scanned tiles in document order. Each tile carries module, delta, parsed width and the identity of its closest region.
- **Active context.** The global `active_context` setting is a parameter.
- **Clicked tile.** The clicked tile is a `TileRef` holding its module, delta and `data-width`. The width used by the resize handlers is this `data-width`, not the manifest's width field, as tiles.js:265 and tiles.js:287 do (`var tile_width = this.width`, read from `data-width` at tiles.js:43).
- **Duplicate keys.** When two kept tiles share a `module-delta` key, `blockIndex` holds the last position. `Manifests.IndexesLastOccurrence` states this exactly. Keys can collide because the dash joining module and delta can also occur inside either part. The move and resize lemmas assume a `Consistent` manifest, where no two tiles share a key. For a manifest built by `regionManifest` this holds whenever no two kept tiles share a key (`LastOccurrenceIsPosition`).

Three behaviours of the code are easy to miss when reading it, and the model keeps each one:

- **Oversized first block.** When the first block alone is wider than the budget, the code leaves `row_0` empty and puts the block in `row_1`: a block of width 5 under a budget of 4 gives rows `[[], [5]]` (`OversizedFirstExample`, `FirstRowEmpty`).
- **Width not in the steps.** Resizing from a width that is not among the steps is not always a boundary error. `$.inArray` returns -1, so `widthPlus` moves the tile to the first step; only `widthMinus` reports the minimum-width boundary (`ResizeFromUnknownWidth`).
- **Other move failures.** A move can also fail in ways other than the first/last boundary. An empty manifest, or a tile missing from `blockIndex`, makes the handler throw. The model returns `Undefined` for these.

## Model

| member | source | states |
|---|---|---|
| RowPacker.WrapRegion | includes/container/TilesContainer.php:153-196 | non-block children stay at the top level in order; every block is stashed in `#original` in order; the rows concatenate to exactly the blocks, each with `tiles_tile` appended, and form the greedy packing under the budget |
| RowPacker.PlacePreservesGreedy | includes/container/TilesContainer.php:177-188 | adding a block to the current row when the column count plus its width fits, else opening a new row, keeps the packing greedy |
| RowPacker.Unplace | includes/container/TilesContainer.php:177-184 | every greedy packing of a non-empty block list is one placement step after a greedy packing of the list without its last block |
| RowPacker.GreedyPackingOfNothing | includes/container/TilesContainer.php:160-165 | with no blocks the only packing is a single empty `row_0` |
| RowPacker.GreedyPackingUnique | includes/container/TilesContainer.php:167-195 | two greedy packings of the same blocks under the same budget are equal |
| RowPacker.OversizedBlockAlone | includes/container/TilesContainer.php:177-184 | with a non-negative budget every row fits, unless it holds a single block wider than the budget; a block wider than the budget is always alone in its row and never in `row_0` |
| RowPacker.FirstRowEmpty | includes/container/TilesContainer.php:160-183 | `row_0` is empty exactly when there are no blocks or the first block alone exceeds the budget, and that block then opens `row_1` |
| RowPacker.PackExample | includes/container/TilesContainer.php:177-184 | widths 2, 2, 3 with budget 4 pack as `[[2, 2], [3]]` |
| RowPacker.OversizedFirstExample | includes/container/TilesContainer.php:177-184 | a single block of width 5 with budget 4 packs as `[[], [5]]` |
| RenderArray.AsTile | includes/container/TilesContainer.php:187-188 | the row copy of a block keeps key, `#block` and `#weight`, and gains `tiles_tile` at the end of its theme wrappers |
| PageRender.RestoreWeights | includes/container/TilesContainer.php:76-81 | every element carrying `#block->weight` gets that value as `#weight`, keeping its other fields; every other element is unchanged |
| PageRender.RestoreWeightsIdempotent | includes/container/TilesContainer.php:76-81 | restoring the weights a second time changes nothing |
| PageRender.NoBlockWeights | includes/container/TilesContainer.php:67-81 | the sorted flag stays TRUE exactly when no element carries `#block->weight` |
| PageRender.MergeRegion | includes/container/TilesContainer.php:64-87 | an empty block list leaves the page unchanged; an absent region becomes the block list with `#sorted` TRUE; a present region gets its children followed by the blocks with weights restored, and `#sorted` is TRUE exactly when no merged element carries a block weight; other regions are untouched |
| PageRender.RenderPage | includes/container/TilesContainer.php:60-90 | regions outside the container's list, and regions whose lookup yields nothing, keep their presence and value; every region with blocks ends up present |
| PageRender.RenderPageRegion | includes/container/TilesContainer.php:62-89 | for distinct region names, each listed region ends up exactly as merging its own blocks into the original page makes it |
| Manifests.RegionManifest | js/tiles.js:145-174 | region and type are copied from the region; the active context is `data-context` when truthy, else the global setting; the blocks are the tiles whose closest region is this one, in scan order, the i-th with weight i and this region's name; `blockIndex` maps exactly the present keys, each to its last position |
| Manifests.LastOccurrenceIsPosition | js/tiles.js:163 | when no two kept tiles share a key, `blockIndex` maps each block's key to its own position and nothing else |
| Mutators.SwapWeights | js/tiles.js:111-115 | exactly two entries exchange weights; the block order, other fields, index and the multiset of weights are unchanged, and a consistent manifest stays consistent |
| Mutators.MoveLeft | js/tiles.js:103-120 | fails with the first-block alert exactly when the first entry is the clicked tile; succeeds exactly when it is not and `blockIndex` holds the tile's key at a position with a predecessor, and then exchanges the weights of that entry and its predecessor, also when keys are shared; in every other case the handler throws |
| Mutators.MoveRight | js/tiles.js:122-139 | fails with the last-block alert exactly when the last entry is the clicked tile; succeeds exactly when it is not and `blockIndex` holds the tile's key at a position with a successor, and then exchanges the weights of that entry and its successor, also when keys are shared; in every other case the handler throws |
| Mutators.MoveLeftAt | js/tiles.js:103-115 | in a consistent manifest, moving the tile at position p left fails on the first tile and otherwise swaps exactly the weights at p-1 and p |
| Mutators.MoveRightAt | js/tiles.js:122-134 | in a consistent manifest, moving the tile at position p right fails on the last tile and otherwise swaps exactly the weights at p and p+1 |
| Mutators.UndoMoveLeft | js/tiles.js:122-134 | moving right the entry that a left move swapped with restores the manifest value |
| Mutators.UndoMoveRight | js/tiles.js:103-115 | moving left the entry that a right move swapped with restores the manifest value |
| Mutators.MoveLeftThenRight | js/tiles.js:103-134 | on the manifest value a move left posts, moving the former predecessor right restores the original manifest (the handlers rebuild the manifest on every click, so this is about the posted value) |
| Mutators.MoveRightThenLeft | js/tiles.js:103-134 | on the manifest value a move right posts, moving the former successor left restores the original manifest (the handlers rebuild the manifest on every click, so this is about the posted value) |
| Mutators.MoveLeftExample | js/tiles.js:111-115 | weights 0, 1, 2 with a move left of the middle tile become 1, 0, 2 |
| Mutators.InArray | js/tiles.js:267 | the first position of the width in the steps, or -1 exactly when it is absent |
| Mutators.SetWidth | js/tiles.js:276 | only the target entry's width changes; weights, order and index stay, and consistency is kept |
| Mutators.WidthPlus | js/tiles.js:262-282 | fails with the full-width alert exactly when the width's step position is the last one (or it is absent and there are no steps); succeeds exactly when a next step exists and `blockIndex` holds the tile's key at a valid position, and then sets that entry's width to the next step; in every other case the handler throws |
| Mutators.WidthMinus | js/tiles.js:284-304 | fails with the minimum-width alert exactly when the width's step position is 0 or it is absent; succeeds exactly when a previous step exists and `blockIndex` holds the tile's key at a valid position, and then sets that entry's width to the previous step; in every other case the handler throws |
| Mutators.ResizeAt | js/tiles.js:264-298 | for the tile at position p whose width is step k: plus sets step k+1 or fails at the last step; minus sets step k-1 or fails at step 0 |
| Mutators.ResizeFromUnknownWidth | js/tiles.js:267-292 | a width outside the steps makes `widthMinus` fail at the minimum and `widthPlus` jump to the first step |
| Mutators.WidthPlusThenMinus | js/tiles.js:262-304 | growing one step and then shrinking the re-rendered tile restores the manifest |
| Mutators.WidthMinusThenPlus | js/tiles.js:262-304 | shrinking one step and then growing the re-rendered tile restores the manifest |
| Mutators.ResizeExample | js/tiles.js:262-304 | with steps 1, 2, 3, 4 a tile of width 2 grows to 3 and shrinks to 1 |

## Left out

- `handleDelivery` is HTTP header emission, printing and request finalisation; it is I/O dispatch with no layout logic.
- `renderManifest` is the same kind of I/O dispatch and is left out for the same reason.
- `save` and `getManifest` decode the request body and hand the blocks to host context functions that are not part of this model.
- `getLayout` is entity storage. Its else-branch creates a layout but never returns it; this is the container's own code, outside the modelled core, and is not modelled.
- `getRegions` is empty in the base class; the region names are an input to `RenderPage`.
- `block_get_blocks_by_region` is a host lookup; it is a map from region name to blocks, and an empty list stands for "nothing".
- `element_children` sorting by `#weight` is host behaviour; the children arrive already ordered.
- RowPacker.WrapRegion: line 157 unsets the region's `#sorted` flag so that `element_children` re-sorts the children, even after `renderPage` set the flag. `WrappedRegion` carries no `#sorted` flag, so the flag's removal and the region's state afterwards are not modelled.
- `tiles_get_max_step` is a host call; the budget is an input.
- PHP `array_merge` renumbers integer keys and lets later string keys override earlier ones; the merge is sequence concatenation.
- Region properties other than `#sorted` are not modelled, and `#sorted` is modelled only for `renderPage`.
- A child whose `#block` key is present but NULL is not modelled; a child either has a block or has no `#block` key.
- A region child keyed `rows` would collide with the rows container; this is not modelled.
- RowPacker.WrapRegion: block widths are non-negative integers. PHP accepts any value in `$block->width`, but the rows property fails for negative widths, and real widths are positive column steps.
- All DOM and jQuery work is left out: class toggling, overlays, the `document.write` override, the contextual-link guards and the re-click callbacks.
- `requestRegion`, `saveManifest` and their success and error handlers are asynchronous network calls. A `Success` result stands for "the manifest is posted".
- Reload on cancel is left out.
- `parseInt` yielding NaN for a non-numeric `data-width` is left out; widths are already integers.
- The `Tile` constructor's DOM lookups are left out; the clicked tile is given as a `TileRef`.
