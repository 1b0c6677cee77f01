/** Grid layout of dithered frames into one sprite sheet (`pack_spritesheet`),
    and the metadata path chosen by its command-line driver. */
module PackSpritesheet {
  import opened Raster
  import opened Names
  import opened Arithmetic

  /** A decoded frame, `sprite[y][x]`, at the cell size (after any resize). */
  type Sprite = seq<seq<Pixel>>

  predicate Fits(s: Sprite, w: nat, h: nat) {
    |s| == h && forall y :: 0 <= y < h ==> |s[y]| == w
  }

  datatype PackError =
    | NoDitheredImages  // `raise ValueError(...)` on an empty selection
    | ZeroColumns       // `columns == 0`: the row count divides by zero
    | EmptySprite       // a zero `sprite_width` or `sprite_height`: resizing a frame to it fails

  datatype Result<T> = Ok(value: T) | Err(error: PackError)

  /** The dictionary `pack_spritesheet` returns. */
  datatype Metadata = Metadata(
    spriteCount: nat,
    spriteSize: (nat, nat),
    sheetSize: (nat, nat),
    grid: (nat, nat),
    files: seq<string>)

  // ---------------------------------------------------------------------
  // Selection

  /** `f.endswith('_dithered.png')`; such a name also ends in `.png`. */
  predicate IsDitheredName(f: string): (b: bool)
    ensures b ==> EndsWith(f, ".png")
  {
    DitheredSuffixIsPng(f);
    EndsWith(f, "_dithered.png")
  }

  lemma DitheredSuffixIsPng(f: string)
    ensures EndsWith(f, "_dithered.png") ==> EndsWith(f, ".png")
  {
    if EndsWith(f, "_dithered.png") {
      assert f[|f| - 4..] == f[|f| - 13..][9..];
    }
  }

  /** `sorted([f for f in os.listdir(input_dir) if f.endswith('_dithered.png')])` */
  function SelectSprites(listing: seq<string>): (r: seq<string>)
    ensures |r| <= |listing|
  {
    Sort(Filter(listing, IsDitheredName))
  }

  /** The packed files are sorted, are exactly the listed names ending in
      `_dithered.png`, and each is kept exactly as often as it is listed. */
  lemma SelectSpritesSpec(listing: seq<string>)
    ensures Sorted(SelectSprites(listing))
    ensures forall f :: f in SelectSprites(listing) <==> f in listing && IsDitheredName(f)
    ensures multiset(SelectSprites(listing)) == multiset(Filter(listing, IsDitheredName))
    ensures multiset(SelectSprites(listing)) <= multiset(listing)
  {
    var selected := Filter(listing, IsDitheredName);
    FilterMultiset(listing, IsDitheredName);
    FilterMembers(listing, IsDitheredName);
    assert forall f :: f in Sort(selected) <==> f in multiset(selected);
  }

  // ---------------------------------------------------------------------
  // Grid arithmetic

  /** `rows = (len(files) + columns - 1) // columns`: the fewest rows that hold every sprite. */
  function GridRows(n: nat, columns: nat): (rows: nat)
    requires columns >= 1
    ensures rows * columns >= n
    ensures (rows - 1) * columns < n
  {
    var q, r := (n + columns - 1) / columns, (n + columns - 1) % columns;
    assert n + columns - 1 == q * columns + r;
    assert (q - 1) * columns == q * columns - columns;
    q
  }

  /** `(col * sprite_width, row * sprite_height)` with `col = idx % columns`,
      `row = idx // columns`: the first `columns` sprites fill the top row
      from the left. */
  function CellOrigin(idx: nat, columns: nat, w: nat, h: nat): (o: (nat, nat))
    requires columns >= 1
    ensures idx < columns ==> o == (idx * w, 0)
  {
    SmallDivMod(idx, columns);
    (idx % columns * w, idx / columns * h)
  }

  /** Pixel `(x, y)` of the sheet lies in the cell of sprite `idx`. */
  predicate InCell(idx: nat, columns: nat, w: nat, h: nat, x: int, y: int)
    requires columns >= 1
  {
    var (x0, y0) := CellOrigin(idx, columns, w, h);
    x0 <= x < x0 + w && y0 <= y < y0 + h
  }

  /** Every sprite's cell lies inside the sheet. */
  lemma CellInBounds(idx: nat, n: nat, columns: nat, w: nat, h: nat)
    requires columns >= 1 && idx < n
    ensures CellOrigin(idx, columns, w, h).0 + w <= w * columns
    ensures CellOrigin(idx, columns, w, h).1 + h <= h * GridRows(n, columns)
  {
    MulLe(idx % columns + 1, columns, w);
    RowInBounds(idx, n, columns);
    MulLe(idx / columns + 1, GridRows(n, columns), h);
  }

  /** Sprite `idx` of `n` sits in one of the grid's rows. */
  lemma RowInBounds(idx: nat, n: nat, columns: nat)
    requires columns >= 1 && idx < n
    ensures idx / columns < GridRows(n, columns)
  {
    var row, rows := idx / columns, GridRows(n, columns);
    assert row * columns <= idx;
    assert (row - rows) * columns == row * columns - rows * columns;
    MulSign(row - rows, columns);
  }

  /** The sprite whose cell holds sheet pixel `(x, y)`. */
  function CellIndex(x: nat, y: nat, columns: nat, w: nat, h: nat): nat
    requires w >= 1 && h >= 1
  {
    (y / h) * columns + x / w
  }

  /** `x // w == col` exactly when `col * w <= x < col * w + w`. */
  lemma DivBetween(x: nat, w: nat, col: nat)
    requires w >= 1
    ensures x / w == col <==> col * w <= x < col * w + w
  {
    assert x == (x / w) * w + x % w;
    if col * w <= x < col * w + w {
      DivModUnique(x, w, col, x - col * w);
    }
  }

  /** A pixel inside the sheet's width lies in one of its `columns` columns. */
  lemma ColumnBound(x: nat, w: nat, columns: nat)
    requires w >= 1 && x < w * columns
    ensures x / w < columns
  {
    assert (x / w) * w <= x;
    assert (x / w - columns) * w == (x / w) * w - columns * w;
    MulSign(x / w - columns, w);
  }

  /** A pixel inside the sheet's width lies in the cell of sprite `idx`
      exactly when `CellIndex` names `idx`: the placement is inverted by
      `CellIndex`. */
  lemma CellIndexInverse(idx: nat, columns: nat, w: nat, h: nat, x: nat, y: nat)
    requires columns >= 1 && w >= 1 && h >= 1 && x < w * columns
    ensures InCell(idx, columns, w, h, x, y) <==> CellIndex(x, y, columns, w, h) == idx
  {
    var col, row := idx % columns, idx / columns;
    assert idx == row * columns + col;
    DivBetween(x, w, col);
    DivBetween(y, h, row);
    ColumnBound(x, w, columns);
    if CellIndex(x, y, columns, w, h) == idx {
      DivModUnique(idx, columns, y / h, x / w);
    }
  }

  /** Distinct sprites never share a pixel. */
  lemma CellsDisjoint(i: nat, j: nat, columns: nat, w: nat, h: nat, x: nat, y: nat)
    requires columns >= 1 && i != j
    ensures !(InCell(i, columns, w, h, x, y) && InCell(j, columns, w, h, x, y))
  {
    if InCell(i, columns, w, h, x, y) && InCell(j, columns, w, h, x, y) {
      InCellWidth(i, columns, w, h, x, y);
      CellIndexInverse(i, columns, w, h, x, y);
      CellIndexInverse(j, columns, w, h, x, y);
    }
  }

  /** A pixel in a cell lies inside the sheet's width. */
  lemma InCellWidth(i: nat, columns: nat, w: nat, h: nat, x: nat, y: nat)
    requires columns >= 1 && InCell(i, columns, w, h, x, y)
    ensures w >= 1 && h >= 1 && x < w * columns
  {
    MulLe(i % columns + 1, columns, w);
  }

  /** Sprites are laid out row-major: a later sprite sits in a later row, or
      further right in the same row. */
  lemma RowMajor(i: nat, j: nat, columns: nat)
    requires columns >= 1 && i < j
    ensures i / columns < j / columns || (i / columns == j / columns && i % columns < j % columns)
  {
    var qi, ri, qj, rj := i / columns, i % columns, j / columns, j % columns;
    assert i == qi * columns + ri && j == qj * columns + rj;
    if qi > qj {
      assert (qi - qj) * columns == qi * columns - qj * columns;
      MulSign(qi - qj, columns);
    } else if qi == qj {
      assert ri < rj;
    }
  }

  // ---------------------------------------------------------------------
  // The sheet

  /** The frames of the packed files, in packing order. */
  function Sprites(files: seq<string>, frames: map<string, Sprite>): (s: seq<Sprite>)
    requires forall f :: f in files ==> f in frames
    ensures |s| == |files| && forall i :: 0 <= i < |files| ==> s[i] == frames[files[i]]
  {
    seq(|files|, i requires 0 <= i < |files| => frames[files[i]])
  }

  /** Pixel `(x, y)` of a sheet holding `sprites` in order: the matching pixel
      of the sprite whose cell holds it, transparent where no sprite is. */
  function SheetPixel(sprites: seq<Sprite>, columns: nat, w: nat, h: nat, x: nat, y: nat): (p: Pixel)
    requires columns >= 1 && w >= 1 && h >= 1
    requires forall i :: 0 <= i < |sprites| ==> Fits(sprites[i], w, h)
    ensures CellIndex(x, y, columns, w, h) >= |sprites| ==> p == Transparent
  {
    var idx := CellIndex(x, y, columns, w, h);
    if idx < |sprites| then
      var s := sprites[idx];
      assert Fits(s, w, h);
      s[y % h][x % w]
    else Transparent
  }

  /** Within the sheet's width, a pixel in the cell of sprite `i` is that
      sprite's pixel at the offset from the cell's corner, and a pixel in no
      sprite's cell is transparent. */
  lemma SheetPixelInCell(sprites: seq<Sprite>, columns: nat, w: nat, h: nat, x: nat, y: nat)
    requires columns >= 1 && w >= 1 && h >= 1 && x < w * columns
    requires forall i :: 0 <= i < |sprites| ==> Fits(sprites[i], w, h)
    ensures forall i :: 0 <= i < |sprites| && InCell(i, columns, w, h, x, y) ==>
      SheetPixel(sprites, columns, w, h, x, y) ==
        sprites[i][y - CellOrigin(i, columns, w, h).1][x - CellOrigin(i, columns, w, h).0]
    ensures (forall i :: 0 <= i < |sprites| ==> !InCell(i, columns, w, h, x, y)) ==>
      SheetPixel(sprites, columns, w, h, x, y) == Transparent
  {
    var idx := CellIndex(x, y, columns, w, h);
    CellIndexInverse(idx, columns, w, h, x, y);
    forall i | 0 <= i < |sprites| && InCell(i, columns, w, h, x, y)
      ensures SheetPixel(sprites, columns, w, h, x, y) ==
        sprites[i][y - CellOrigin(i, columns, w, h).1][x - CellOrigin(i, columns, w, h).0]
    {
      CellIndexInverse(i, columns, w, h, x, y);
      CellOffsets(i, columns, w, h, x, y);
    }
  }

  /** `sheet.paste(img, (x0, y0))` for an image of exactly `w` by `h` pixels
      placed inside the sheet: the pixels of the box are replaced, every
      other pixel is unchanged. */
  method Paste(sheet: array2<Pixel>, sprite: Sprite, w: nat, h: nat, x0: nat, y0: nat)
    requires Fits(sprite, w, h) && y0 + h <= sheet.Length0 && x0 + w <= sheet.Length1
    modifies sheet
    ensures forall y, x :: 0 <= y < sheet.Length0 && 0 <= x < sheet.Length1 ==>
      sheet[y, x] == if y0 <= y < y0 + h && x0 <= x < x0 + w then sprite[y - y0][x - x0] else old(sheet[y, x])
  {
    for dy := 0 to h
      invariant forall y, x :: 0 <= y < sheet.Length0 && 0 <= x < sheet.Length1 ==>
        sheet[y, x] == if y0 <= y < y0 + dy && x0 <= x < x0 + w then sprite[y - y0][x - x0] else old(sheet[y, x])
    {
      for dx := 0 to w
        invariant forall y, x :: 0 <= y < sheet.Length0 && 0 <= x < sheet.Length1 ==>
          sheet[y, x] == if (y0 <= y < y0 + dy && x0 <= x < x0 + w) || (y == y0 + dy && x0 <= x < x0 + dx)
            then sprite[y - y0][x - x0] else old(sheet[y, x])
      {
        sheet[y0 + dy, x0 + dx] := sprite[dy][dx];
      }
    }
  }

  /** Pasting sprite `k` into a sheet that holds sprites `0 .. k-1` gives the
      sheet that holds sprites `0 .. k`. */
  lemma PasteNext(sprites: seq<Sprite>, k: nat, columns: nat, w: nat, h: nat, x: nat, y: nat)
    requires columns >= 1 && w >= 1 && h >= 1 && k < |sprites| && x < w * columns
    requires forall i :: 0 <= i < |sprites| ==> Fits(sprites[i], w, h)
    ensures SheetPixel(sprites[..k + 1], columns, w, h, x, y) ==
      if InCell(k, columns, w, h, x, y)
      then sprites[k][y - CellOrigin(k, columns, w, h).1][x - CellOrigin(k, columns, w, h).0]
      else SheetPixel(sprites[..k], columns, w, h, x, y)
  {
    var idx := CellIndex(x, y, columns, w, h);
    CellIndexInverse(k, columns, w, h, x, y);
    if idx == k {
      CellOffsets(k, columns, w, h, x, y);
      assert sprites[..k + 1][k] == sprites[k];
    } else if idx < k {
      assert sprites[..k + 1][idx] == sprites[..k][idx];
    }
  }

  /** Inside the cell of sprite `k`, the offset from the cell's corner is the
      position modulo the sprite size. */
  lemma CellOffsets(k: nat, columns: nat, w: nat, h: nat, x: nat, y: nat)
    requires columns >= 1 && w >= 1 && h >= 1 && x < w * columns
    requires CellIndex(x, y, columns, w, h) == k
    ensures y - CellOrigin(k, columns, w, h).1 == y % h
    ensures x - CellOrigin(k, columns, w, h).0 == x % w
  {
    ColumnBound(x, w, columns);
    DivModUnique(k, columns, y / h, x / w);
  }

  /** The paste loop of `pack_spritesheet`: sprite `idx` goes into its cell,
      in order, on a sheet that starts transparent. */
  method PasteAll(sheet: array2<Pixel>, sprites: seq<Sprite>, columns: nat, w: nat, h: nat)
    requires columns >= 1 && |sprites| >= 1
    requires forall i :: 0 <= i < |sprites| ==> Fits(sprites[i], w, h)
    requires sheet.Length1 == w * columns && sheet.Length0 == h * GridRows(|sprites|, columns)
    requires forall y, x :: 0 <= y < sheet.Length0 && 0 <= x < sheet.Length1 ==> sheet[y, x] == Transparent
    modifies sheet
    ensures forall y, x :: 0 <= y < sheet.Length0 && 0 <= x < sheet.Length1 ==>
      w >= 1 && h >= 1 && sheet[y, x] == SheetPixel(sprites, columns, w, h, x, y)
  {
    for idx := 0 to |sprites|
      invariant forall y, x :: 0 <= y < sheet.Length0 && 0 <= x < sheet.Length1 ==>
        w >= 1 && h >= 1 && sheet[y, x] == SheetPixel(sprites[..idx], columns, w, h, x, y)
    {
      var col := idx % columns;
      var row := idx / columns;
      CellInBounds(idx, |sprites|, columns, w, h);
      Paste(sheet, sprites[idx], w, h, col * w, row * h);
      forall py, px | 0 <= py < sheet.Length0 && 0 <= px < sheet.Length1
        ensures sheet[py, px] == SheetPixel(sprites[..idx + 1], columns, w, h, px, py)
      {
        PasteNext(sprites, idx, columns, w, h, px, py);
      }
    }
    assert sprites[..|sprites|] == sprites;
  }

  /** The sheet `pack_spritesheet` builds for the selected `files`: a
      transparent canvas of `columns` by `rows` cells with each frame pasted
      into its cell. */
  method Assemble(files: seq<string>, frames: map<string, Sprite>, w: nat, h: nat, columns: nat, rows: nat)
    returns (sheet: array2<Pixel>)
    requires |files| >= 1 && columns >= 1 && rows == GridRows(|files|, columns)
    requires forall f :: f in files ==> f in frames && Fits(frames[f], w, h)
    ensures fresh(sheet) && sheet.Length1 == w * columns && sheet.Length0 == h * rows
    ensures forall y, x :: 0 <= y < sheet.Length0 && 0 <= x < sheet.Length1 ==>
      w >= 1 && h >= 1 && sheet[y, x] == SheetPixel(Sprites(files, frames), columns, w, h, x, y)
  {
    sheet := new Pixel[h * rows, w * columns]((y, x) => Transparent);
    var sprites := Sprites(files, frames);
    PasteAll(sheet, sprites, columns, w, h);
  }

  /** Every selected file has a frame of the sprite size. */
  lemma SelectedFramesFit(listing: seq<string>, frames: map<string, Sprite>, w: nat, h: nat)
    requires forall f :: f in listing && IsDitheredName(f) ==> f in frames && Fits(frames[f], w, h)
    ensures forall f :: f in SelectSprites(listing) ==> f in frames && Fits(frames[f], w, h)
  {
    SelectSpritesSpec(listing);
  }

  /** `pack_spritesheet` on a directory listing and the decoded frames of its
      files: the returned metadata, and the sheet it saves. */
  method Pack(listing: seq<string>, frames: map<string, Sprite>, spriteWidth: nat, spriteHeight: nat, columns: nat)
    returns (result: Result<Metadata>, sheet: array2<Pixel>)
    requires forall f :: f in listing && IsDitheredName(f) ==> f in frames && Fits(frames[f], spriteWidth, spriteHeight)
    ensures result == Layout(listing, spriteWidth, spriteHeight, columns)
    ensures fresh(sheet)
    ensures result.Ok? ==>
      (forall f :: f in result.value.files ==> f in frames && Fits(frames[f], spriteWidth, spriteHeight)) &&
      sheet.Length1 == result.value.sheetSize.0 && sheet.Length0 == result.value.sheetSize.1 &&
      forall y, x :: 0 <= y < sheet.Length0 && 0 <= x < sheet.Length1 ==>
        spriteWidth >= 1 && spriteHeight >= 1 &&
        sheet[y, x] == SheetPixel(Sprites(result.value.files, frames), columns, spriteWidth, spriteHeight, x, y)
  {
    var files := SelectSprites(listing);
    if |files| == 0 {
      return Err(NoDitheredImages), new Pixel[0, 0];
    }
    if columns == 0 {
      return Err(ZeroColumns), new Pixel[0, 0];
    }
    if spriteWidth == 0 || spriteHeight == 0 {
      return Err(EmptySprite), new Pixel[0, 0];
    }
    var rows := GridRows(|files|, columns);
    SelectedFramesFit(listing, frames, spriteWidth, spriteHeight);
    sheet := Assemble(files, frames, spriteWidth, spriteHeight, columns, rows);
    result := Ok(Metadata(|files|, (spriteWidth, spriteHeight), (spriteWidth * columns, spriteHeight * rows), (columns, rows), files));
  }

  /** The metadata `pack_spritesheet` returns for a directory listing, or
      the error it stops with. */
  function Layout(listing: seq<string>, w: nat, h: nat, columns: nat): (r: Result<Metadata>)
    ensures r.Ok? ==> columns >= 1 && w >= 1 && h >= 1 && r.value.spriteCount == |r.value.files| >= 1
  {
    var files := SelectSprites(listing);
    if |files| == 0 then Err(NoDitheredImages)
    else if columns == 0 then Err(ZeroColumns)
    else if w == 0 || h == 0 then Err(EmptySprite)
    else
      var rows := GridRows(|files|, columns);
      Ok(Metadata(|files|, (w, h), (w * columns, h * rows), (columns, rows), files))
  }

  /** Packing fails exactly when no listed name ends in `_dithered.png`,
      when there are no columns, or when a sprite dimension is zero, and it
      reports the first of these in that order. */
  lemma LayoutErrors(listing: seq<string>, w: nat, h: nat, columns: nat)
    ensures Layout(listing, w, h, columns).Err? <==>
      (forall f :: f in listing ==> !IsDitheredName(f)) || columns == 0 || w == 0 || h == 0
    ensures Layout(listing, w, h, columns) == Err(NoDitheredImages) <==> forall f :: f in listing ==> !IsDitheredName(f)
    ensures Layout(listing, w, h, columns) == Err(ZeroColumns) <==>
      (exists f :: f in listing && IsDitheredName(f)) && columns == 0
    ensures Layout(listing, w, h, columns) == Err(EmptySprite) <==>
      (exists f :: f in listing && IsDitheredName(f)) && columns >= 1 && (w == 0 || h == 0)
  {
    var files := SelectSprites(listing);
    SelectSpritesSpec(listing);
    if |files| > 0 {
      assert files[0] in listing;
    }
  }

  /** On success the metadata lists the selected files, and the grid has
      `columns` columns and the fewest rows that hold every sprite. */
  lemma LayoutOk(listing: seq<string>, w: nat, h: nat, columns: nat)
    requires Layout(listing, w, h, columns).Ok?
    ensures var m := Layout(listing, w, h, columns).value;
      m.files == SelectSprites(listing) && m.spriteCount == |m.files| >= 1 &&
      m.grid.0 == columns && m.grid.0 * m.grid.1 >= m.spriteCount > (m.grid.1 - 1) * m.grid.0 &&
      m.sheetSize == (w * m.grid.0, h * m.grid.1) && m.spriteSize == (w, h)
  {
  }

  // ---------------------------------------------------------------------
  // Metadata path

  /** `args.output.replace('.png', '_metadata.json')`, as written: it is
      the sheet's own path exactly when that path holds no lower-case `.png`. */
  function MetadataPath(output: string): (r: string)
    ensures r == output <==> !HasPng(output)
  {
    ReplacePng(output, "_metadata.json")
  }

  /** `sheet.png` gets its metadata in `sheet_metadata.json`. */
  lemma MetadataPathOfPng(stem: string)
    requires !HasPng(stem)
    ensures MetadataPath(stem + ".png") == stem + "_metadata.json"
  {
    ReplacePngExtension(stem, "_metadata.json");
  }

  /** As written, a sheet path without a lower-case `.png` is its own metadata
      path, so the JSON dump replaces the sheet just saved. */
  lemma MetadataPathOverwritesSheet()
    ensures MetadataPath("sheet.PNG") == "sheet.PNG"
  {
    NoPngWithoutG("sheet.PNG");
  }

  /** The metadata path with the sheet's extension swapped for
      `_metadata.json` (or appended to it when the sheet has no `.png`
      extension): never the sheet's own path. */
  function CorrectedMetadataPath(output: string): (r: string)
    ensures r != output
    ensures EndsWith(r, "_metadata.json")
    ensures EndsWith(output, ".png") ==> r == output[..|output| - 4] + "_metadata.json"
  {
    if EndsWith(output, ".png") then
      var r := output[..|output| - 4] + "_metadata.json";
      assert r[|r| - 1] == 'n' && output[|output| - 1] == 'g';
      r
    else
      output + "_metadata.json"
  }

  /** On the paths the source expects, the corrected path is the one it writes. */
  lemma CorrectedMetadataPathAgrees(stem: string)
    requires !HasPng(stem)
    ensures CorrectedMetadataPath(stem + ".png") == MetadataPath(stem + ".png")
  {
    MetadataPathOfPng(stem);
    var p := stem + ".png";
    assert p[|p| - 4..] == ".png";
    assert p[..|p| - 4] == stem;
  }
}
