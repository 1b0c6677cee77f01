# Finger sprite processing: dithering and sprite-sheet packing

This project models the two image-processing scripts of the finger-sprite
pipeline, and proves properties of the models.

- `processing/dither.py` turns each rendered frame into a 1-bit
  black-or-white image. It uses ordered (Bayer) dithering and keeps the
  frame's alpha channel. Its batch driver walks an input directory in
  sorted order, keeps the names ending in `.png` (in any letter case), and
  writes each result under the name given by
  `name.replace(".png", "_dithered.png")`.
- `processing/pack_spritesheet.py` picks the `*_dithered.png` frames of a
  directory in sorted order. It pastes them row by row into a transparent
  grid of `columns` cells per row, and returns the sheet's metadata. The
  metadata is written next to the sheet, under a name obtained by
  replacing `.png` with `_metadata.json`.

Files:

- `raster.dfy` (module `Raster`): bytes and RGBA pixels.
- `arithmetic.dfy` (module `Arithmetic`): facts about products, Euclidean
  division and remainders.
- `names.dfy` (module `Names`): the string operations both scripts use:
  - `str.endswith`;
  - `str.lower`, on ASCII;
  - Python's `str` ordering and `sorted`, as a proved insertion sort;
  - list filtering;
  - `str.replace(".png", …)`, which replaces every occurrence.
- `dither.dfy` (module `Dither`):
  - the two Bayer presets;
  - the per-pixel rule, as the specification function `DitherPixel`;
  - `ordered_dither`, as the imperative method `OrderedDither`, which
    loops over an `array2` and is proved against `DitherPixel`;
  - the batch driver's plan of input and output names.
- `pack_spritesheet.dfy` (module `PackSpritesheet`):
  - the selection of frames;
  - the grid arithmetic;
  - `Image.paste`, as the method `Paste` on an `array2`;
  - `pack_spritesheet`, as the method `Pack`, proved against the
    specification functions `Layout` (the metadata) and `SheetPixel`
    (every pixel of the sheet);
  - the metadata path.
- `pipeline.dfy` (module `Pipeline`): how the dithering script's output
  names meet the packer's selection and order.

The threshold test `pixel > (threshold + 0.5) / matrix_size * 255` is
modelled with exact rational arithmetic. The contract of `AboveThreshold`
proves it equivalent to the integer test `2 * n * l > (2t + 1) * 255`. For the two
presets (`n` = 4 and 16) every quantity in the source's floating-point
test is a dyadic rational of few bits, so the float test and the exact
test agree.

## Model

| member | source | states |
|---|---|---|
| Dither.PresetsAreRankMatrices | processing/dither.py:7-17 | `BAYER_2x2` holds each of 0..3 once and `BAYER_4x4` each of 0..15 once, so each is a full threshold ranking of its 4 or 16 cells |
| Dither.Bayer2x2IsRankMatrix | processing/dither.py:7-10 | `BAYER_2x2` is a 2×2 matrix whose entries are a permutation of 0..3 |
| Dither.Bayer4x4IsRankMatrix | processing/dither.py:12-17 | `BAYER_4x4` is a 4×4 matrix whose entries are a permutation of 0..15 |
| Dither.Bayer4x4Shape | processing/dither.py:12-17 | `BAYER_4x4` is rectangular with `matrix_size` 16 |
| Dither.AllRanksPresent | processing/dither.py:12-17 | a list of n entries that contains every value 0..n-1 is a permutation of 0..n-1 (the pigeonhole step behind the preset lemmas) |
| Dither.RangeCount | processing/dither.py:36 | 0..n-1 contains each value below n exactly once and nothing else |
| Dither.Size | processing/dither.py:34-36 | `matrix_size = t_h * t_w` is at least the number of rows and at least the number of columns |
| Dither.ThresholdCell | processing/dither.py:54 | the threshold `bayer[y % t_h, x % t_w]` of a pixel; in a rank matrix it is always a rank between 0 and `matrix_size - 1` |
| Dither.AboveThreshold | processing/dither.py:55-57 | the test `pixel > (threshold + 0.5) / matrix_size * 255`, in exact arithmetic, holds exactly when `2 * matrix_size * pixel > (2 * threshold + 1) * 255` |
| Dither.DitherPixel | processing/dither.py:40-52 | the output byte is 0 or 255; alpha below 5 gives 0; otherwise luminance at most `black_cutoff` gives 0; otherwise luminance at least `white_cutoff` gives 255 |
| Dither.DitherPixelMidTone | processing/dither.py:54-57 | a visible pixel strictly between the cutoffs is white exactly when `2 * matrix_size * pixel > (2 * t + 1) * 255`, where `t` is matrix cell `[y % t_h][x % t_w]` |
| Dither.Shade | processing/dither.py:59-63 | the output pixel merged from the 1-bit value `v` and the input alpha: R, G and B all equal `v`, and its alpha is the input's |
| Dither.DitherPixelPeriodic | processing/dither.py:54 | shifting a pixel by whole tiles of the matrix, in x and in y, never changes its output |
| Dither.DitherPixelMonotone | processing/dither.py:47-57 | at a fixed position and alpha, a brighter pixel never gives darker output |
| Dither.WhiteCutoffAntitone | processing/dither.py:50-57 | raising `white_cutoff` never turns a black output white |
| Dither.RowOutputs | processing/dither.py:40-41 | one row of a tile has one output per matrix column |
| Dither.TileWhiteCount | processing/dither.py:54-57 | for a rank matrix and a visible mid-tone luminance `l`, the number of white pixels in one tile equals the number of ranks `t` with `2nl > (2t+1)*255` |
| Dither.TileWhiteShare | processing/dither.py:54-57 | the same count in closed form, `min(n, (2nl + 254) / 510)`: the white share of a tile follows the grey level |
| Dither.TileRowsCount | processing/dither.py:40-57 | the white outputs of the tile's rows from `y` on are counted by the thresholds in those rows |
| Dither.CountMatch | processing/dither.py:57 | a list of outputs that is 255 exactly where the threshold test passes has as many 255s as there are passing thresholds |
| Dither.WhiteCountRange | processing/dither.py:55-57 | among the ranks 0..n-1, exactly `min(n, (k + 254) / 510)` pass the threshold test at scaled luminance `k` |
| Dither.WhiteCountPermutation | processing/dither.py:54-57 | the number of passing thresholds depends only on the multiset of thresholds, not on their arrangement in the matrix |
| Dither.WhiteCountAppend | processing/dither.py:54-57 | counting passing thresholds splits over concatenation |
| Dither.PermutationTail | processing/dither.py:54-57 | removing the first threshold of one list and a matching one of its permutation leaves permutations of each other |
| Dither.WhiteCountRemove | processing/dither.py:54-57 | taking one threshold out of a list removes exactly its own contribution to the count |
| Dither.Count255Append | processing/dither.py:57 | counting white outputs splits over concatenation |
| Dither.CellInTile | processing/dither.py:54 | inside the first tile, the threshold used at `(x, y)` is the matrix entry `[y][x]` |
| Dither.MidGrayCells | processing/dither.py:12-17 | with the 4×4 preset, the default cutoffs 10 and 170, and full alpha, luminance 128 gives white exactly on the cells ranked below 8 |
| Dither.MidGrayCount | processing/dither.py:12-17 | with the 4×4 preset and the default cutoffs, luminance 128 turns exactly 8 of the 16 pixels of a tile white |
| Dither.OrderedDither | processing/dither.py:20-65 | the result is a new array; it has the frame's size; every pixel is `(v, v, v, alpha)` where `v` is `DitherPixel` at that position, so its alpha is the input's, its RGB channels are equal, and its value is 0 or 255 |
| Dither.IsPngName | processing/dither.py:83 | `filename.lower().endswith(".png")` holds exactly when the name's last four characters, lower-cased, are `.png` |
| Dither.DitheredName | processing/dither.py:87 | the output name `filename.replace(".png", "_dithered.png")` is the input itself when it holds no lower-case `.png`, and otherwise at least nine characters longer |
| Dither.PngNames | processing/dither.py:82-84 | the names the driver dithers, in the order it visits them, are no more than the names listed |
| Dither.PngNamesSpec | processing/dither.py:82-84 | the frames the driver processes are sorted, are exactly the listed names whose lower-cased form ends in `.png`, and each is kept exactly as often as the listing holds it |
| Dither.PlanBatch | processing/dither.py:82-88 | the driver visits the selected names in sorted order and pairs each with the output name `name.replace(".png", "_dithered.png")` |
| Dither.PlanJobs | processing/dither.py:82-88 | the loop over names in a given order skips each name without a `.png` extension (in any case) and gives every other name, in order, its job and output name |
| Dither.DitheredNameOfPng | processing/dither.py:83-87 | a name `<stem>.png`, with no other `.png` in the stem, is selected and is written as `<stem>_dithered.png` |
| Dither.UpperCaseExtensionKeepsName | processing/dither.py:83-87 | `X.PNG` is selected, but its output name is `X.PNG` unchanged, since the case-insensitive test is not matched by the case-sensitive replace |
| Names.LowerChar | processing/dither.py:83 | ASCII upper-case letters map to their lower-case letters and every other character is unchanged |
| Names.Lower | processing/dither.py:83 | lower-casing keeps the length |
| Names.LowerAppend | processing/dither.py:83 | lower-casing works character by character and distributes over concatenation |
| Names.LowerSuffix | processing/dither.py:83 | the lower-cased tail of a name is the tail of the lower-cased name |
| Names.LowerEndsWithPng | processing/dither.py:83 | lower-casing a name ending in `.png` keeps that ending |
| Names.EndsWith | processing/pack_spritesheet.py:14 | `s.endswith(suffix)` holds exactly when `s` is some prefix followed by `suffix` |
| Names.LexLe | processing/pack_spritesheet.py:14 | Python's order of `str`, code point by code point: a prefix comes before every extension of it, and no longer name comes before its own prefix |
| Names.LexLeTotal | processing/dither.py:82 | any two names are ordered one way or the other |
| Names.LexLeTransitive | processing/dither.py:82 | the name order is transitive |
| Names.LexLeAntisymmetric | processing/dither.py:82 | names ordered both ways are equal |
| Names.Insert | processing/dither.py:82 | inserting into a sorted list keeps it sorted and adds exactly that element |
| Names.InsertFront | processing/dither.py:82 | an element no greater than the head of a sorted list can go in front of it |
| Names.InsertBehind | processing/dither.py:82 | an element greater than the head goes behind it into the sorted tail, keeping the list sorted and adding exactly that element |
| Names.Sort | processing/pack_spritesheet.py:14 | `sorted` returns an ascending permutation of its argument |
| Names.SortedUnique | processing/pack_spritesheet.py:14 | two ascending permutations of the same names are equal, so the sorted order is fully determined |
| Names.SortedHeadLeast | processing/pack_spritesheet.py:14 | the first element of a sorted list is no greater than any element in it |
| Names.TailMultiset | processing/pack_spritesheet.py:14 | a non-empty list's multiset is its head plus its tail's |
| Names.Filter | processing/pack_spritesheet.py:14 | a list comprehension with a condition is no longer than the input |
| Names.FilterMembers | processing/pack_spritesheet.py:14 | a list comprehension with a condition keeps exactly the elements that satisfy it |
| Names.FilterCount | processing/pack_spritesheet.py:14 | a list comprehension with a condition keeps every passing element exactly as often as it occurs, and no other |
| Names.FilterPermutation | processing/dither.py:82-84 | filtering two permutations of a listing gives permutations of each other, so filtering before or after sorting selects the same names |
| Names.FilterSnoc | processing/dither.py:82-85 | filtering a list extended by one element extends the result by that element exactly when it passes |
| Names.FilterMultiset | processing/pack_spritesheet.py:14 | filtering only drops elements |
| Names.FilterSorted | processing/dither.py:82-85 | filtering a sorted list leaves it sorted |
| Names.ReplacePng | processing/dither.py:87 | `s.replace(".png", rep)`, every case-sensitive occurrence from left to right: a name without `.png` comes back unchanged, a replacement at least four characters long never shortens the name, and a name holding `.png` grows by at least `len(rep) - 4` |
| Names.HasPngAt | processing/dither.py:87 | `".png" in s`, defined as "starts with `.png` or the tail holds one", holds exactly when `.png` occurs at some index |
| Names.NoPngWithoutG | processing/pack_spritesheet.py:73 | a name without a lower-case `g` holds no `.png` |
| Names.ReplacePngLeftmost | processing/pack_spritesheet.py:73 | the leftmost `.png` is replaced and the scan goes on after it: `p + ".png" + q`, with no occurrence starting inside `p`, becomes `p + rep` followed by the replaced `q` (so `a.png.png` becomes `a_dithered.png_dithered.png`) |
| Names.PngAtTail | processing/dither.py:87 | an occurrence of `.png` in a tail is an occurrence in the whole name |
| Names.ReplacePngExtension | processing/dither.py:87 | on `<stem>.png`, with no `.png` in the stem, `replace(".png", rep)` gives `<stem><rep>` |
| Names.NoPngAtStart | processing/dither.py:87 | a `.png` occurrence cannot start in the first character of `<stem>.png` when the stem has none and is not empty |
| PackSpritesheet.IsDitheredName | processing/pack_spritesheet.py:14 | `f.endswith('_dithered.png')`; every such name also ends in `.png` |
| PackSpritesheet.SelectSprites | processing/pack_spritesheet.py:14 | the sorted list of files to pack is no longer than the listing |
| PackSpritesheet.SelectSpritesSpec | processing/pack_spritesheet.py:14 | the packed frames are sorted, are exactly the listed names ending in `_dithered.png`, and each is kept exactly as often as the listing holds it |
| PackSpritesheet.GridRows | processing/pack_spritesheet.py:20 | `rows = (len(files) + columns - 1) // columns` is the fewest rows of `columns` cells that hold every frame |
| PackSpritesheet.CellOrigin | processing/pack_spritesheet.py:35-38 | the top-left corner `(idx % columns * w, idx // columns * h)` of frame `idx`; the first `columns` frames fill the top row from the left |
| PackSpritesheet.CellInBounds | processing/pack_spritesheet.py:21-22 | the cell of every frame, at `(idx % columns * w, idx // columns * h)`, lies inside the `w*columns` by `h*rows` sheet |
| PackSpritesheet.RowInBounds | processing/pack_spritesheet.py:20 | frame `idx` of `n` lies in one of the grid's `rows` rows |
| PackSpritesheet.InCellWidth | processing/pack_spritesheet.py:35-37 | a pixel in any frame's cell lies inside the sheet's width |
| PackSpritesheet.CellOffsets | processing/pack_spritesheet.py:35-40 | inside the cell of frame `k`, the offset from the cell's corner is the pixel position modulo the sprite size |
| PackSpritesheet.DivBetween | processing/pack_spritesheet.py:35-37 | pixel column `x` belongs to grid column `col` exactly when `col*w <= x < col*w + w` |
| PackSpritesheet.ColumnBound | processing/pack_spritesheet.py:21 | a pixel column inside the sheet is in a grid column below `columns` |
| PackSpritesheet.CellIndexInverse | processing/pack_spritesheet.py:35-38 | a sheet pixel lies in the cell of frame `idx` exactly when its row-major cell number is `idx` |
| PackSpritesheet.CellsDisjoint | processing/pack_spritesheet.py:35-38 | the cells of two different frames never share a pixel |
| PackSpritesheet.RowMajor | processing/pack_spritesheet.py:35-36 | a later frame goes to a later row, or to a later column of the same row |
| PackSpritesheet.Sprites | processing/pack_spritesheet.py:28-29 | the frames pasted are those of the selected files, in their order |
| PackSpritesheet.SheetPixel | processing/pack_spritesheet.py:25-40 | the pixel the finished sheet holds at `(x, y)`, found from its cell number; past the last frame's cell it is transparent |
| PackSpritesheet.SheetPixelInCell | processing/pack_spritesheet.py:25-40 | inside the sheet's width, a pixel in the cell of frame `i` is that frame's pixel at the offset from the cell's corner, and a pixel in no frame's cell is transparent |
| PackSpritesheet.Paste | processing/pack_spritesheet.py:40 | pasting replaces the `w` by `h` box at `(x, y)` with the frame, alpha included, and leaves every other pixel as it was |
| PackSpritesheet.PasteNext | processing/pack_spritesheet.py:28-40 | after pasting frame `k`, a pixel shows frame `k` if it is in that frame's cell and otherwise what it showed before |
| PackSpritesheet.PasteAll | processing/pack_spritesheet.py:25-40 | on a transparent sheet of the grid's size, the paste loop leaves every pixel equal to `SheetPixel`: the matching pixel of the frame whose cell holds it, transparent where no frame is |
| PackSpritesheet.SelectedFramesFit | processing/pack_spritesheet.py:28-33 | every selected file has a frame of the sprite size |
| PackSpritesheet.Assemble | processing/pack_spritesheet.py:21-40 | the new sheet is `w*columns` by `h*rows`, with each frame in its cell and the rest transparent |
| PackSpritesheet.Pack | processing/pack_spritesheet.py:10-52 | the result is the metadata `Layout` gives (or its error); the sheet is a new array; on success every packed file has a frame, the sheet has the reported size, and it holds each frame in its cell with the rest transparent |
| PackSpritesheet.Layout | processing/pack_spritesheet.py:14-52 | the metadata `pack_spritesheet` returns, or the error it stops with; on success there is at least one file, the sprite count is the number of files, and the columns and both sprite dimensions are at least 1 |
| PackSpritesheet.LayoutErrors | processing/pack_spritesheet.py:14-33 | packing fails exactly when no name ends in `_dithered.png` (`NoDitheredImages`), when `columns` is 0 (`ZeroColumns`), or when the sprite width or height is 0 (`EmptySprite`), and reports the first of these in that order |
| PackSpritesheet.LayoutOk | processing/pack_spritesheet.py:14-52 | on success the metadata lists the selected files and counts them (at least one), reports the sprite size, a grid of `columns` by the fewest rows that hold them, and a sheet of `w*columns` by `h*rows` |
| PackSpritesheet.MetadataPath | processing/pack_spritesheet.py:73 | `args.output.replace('.png', '_metadata.json')` is the sheet's own path exactly when that path holds no lower-case `.png` |
| PackSpritesheet.MetadataPathOfPng | processing/pack_spritesheet.py:73 | the metadata of `<stem>.png` goes to `<stem>_metadata.json` |
| PackSpritesheet.MetadataPathOverwritesSheet | processing/pack_spritesheet.py:73 | for the sheet path `sheet.PNG`, the metadata path is `sheet.PNG` itself |
| PackSpritesheet.CorrectedMetadataPath | processing/pack_spritesheet.py:73 | the corrected metadata path always ends in `_metadata.json` and is never the sheet's own path |
| PackSpritesheet.CorrectedMetadataPathAgrees | processing/pack_spritesheet.py:73 | on `<stem>.png` the corrected path is the one the script writes |
| Pipeline.DitheredFrameIsPacked | processing/dither.py:83-87 | a frame `<stem>.png` is dithered, and its output name ends in `_dithered.png`, so the packer picks it up |
| Pipeline.UpperCaseFrameIsNotPacked | processing/pack_spritesheet.py:14 | a frame `X.PNG` is dithered, but its output is not picked up by the packer |
| Pipeline.LexLeEqualLength | processing/pack_spritesheet.py:14 | for two different names of equal length, appending suffixes does not change their order |
| Pipeline.RenamePreservesOrder | processing/pack_spritesheet.py:14 | for stems of equal length, `<a>.png` sorts before `<b>.png` exactly when `<a>_dithered.png` sorts before `<b>_dithered.png`, so the sheet keeps the frames' order |
| Pipeline.RenameCanReorder | processing/pack_spritesheet.py:14 | stems of different length can swap: `a.png` sorts before `a0.png`, but `a0_dithered.png` sorts before `a_dithered.png` |

## Left out

- Image decoding and encoding, directory listing, `os.makedirs`, `sheet.save`, the JSON dump and all printing are not modelled. Listings and decoded frames are parameters, and the pixels are returned.
- The conversion of a frame to RGBA and the luminance (`"L"`) conversion are library code. `OrderedDither` takes the luminance and alpha planes as byte arrays.
- Command-line parsing is not modelled. Cutoffs, the matrix and the sprite geometry are parameters; the `--matrix` choice is the caller's pick of `Bayer2x2` or `Bayer4x4`.
- Dither.AboveThreshold: the threshold is compared in exact arithmetic. For the two presets this matches the float computation, but for a matrix whose size is not a power of two, float rounding of `(t + 0.5) / n * 255` is not modelled.
- Names.Lower: only the ASCII letters are lower-cased. Python's full Unicode case mapping is not modelled.
- Names.LowerChar: maps only `A`..`Z` to `a`..`z` and leaves every other character unchanged, where Python's `str.lower` also lower-cases non-ASCII letters. The `.png` test is not affected.
- PackSpritesheet.Pack: frames whose size differs from the sprite size are resized with `Image.NEAREST`, which is library code. The model requires the frames already at the sprite size.
- PackSpritesheet.Pack: sprite sizes and `columns` are natural numbers, so negative command-line values are outside the model. The source raises for them: `Image.new` at line 25 rejects a negative sheet size, and otherwise the resize at line 33 rejects a non-positive target size.
- PackSpritesheet.LayoutErrors: `columns == 0` makes the source fail with a division by zero at line 20. The model returns the error `ZeroColumns` instead of raising.
- PackSpritesheet.LayoutErrors: a sprite width or height of 0 makes the source raise at line 33, since every decoded frame is at least 1 by 1 and so is resized to the empty target size. The model returns the error `EmptySprite` instead, after the checks of lines 16 and 20, as the source's order gives.
- Blender rendering and the pipeline runner are not part of this model. The only use made of them is that frame names have fixed-width numbers, which is why `Pipeline.RenamePreservesOrder` is stated for stems of equal length.

## Findings

| source | as written | input that shows it | evidently intended | confidence | as-written member | corrected member |
|---|---|---|---|---|---|---|
| processing/pack_spritesheet.py:73 | `args.output.replace('.png', '_metadata.json')` returns the path unchanged when it has no lower-case `.png`, so the metadata JSON is written over the sheet just saved | `--output sheet.PNG` | the metadata goes to a separate `…_metadata.json` file next to the sheet | not executed; high that the path comes back unchanged, medium that such paths are used | PackSpritesheet.MetadataPathOverwritesSheet | PackSpritesheet.CorrectedMetadataPath |
