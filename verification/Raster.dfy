/** The loop that blows QR modules up to pixel rectangles (src/gtk/kee-transport.c:123-145). */
module Raster {
  import opened Bytes

  const QR_CAP := 125
  const MODULE_SIZE := 7
  const COMPONENTS := 3
  const MODULE_BYTES := MODULE_SIZE * COMPONENTS
  const IMAGE_SIZE := (QR_CAP * MODULE_SIZE * COMPONENTS) * (QR_CAP * MODULE_SIZE * COMPONENTS)

  /** Row-major position. */
  function At(row: nat, col: nat, width: nat): nat {
    row * width + col
  }

  lemma {:induction false} RowsApart(row: nat, row': nat, width: nat)
    requires row < row'
    ensures row * width + width <= row' * width
    decreases row'
  {
    assert row' * width == (row' - 1) * width + width;
    if row < row' - 1 {
      RowsApart(row, row' - 1, width);
    }
  }

  lemma AtInjective(row: nat, col: nat, row': nat, col': nat, width: nat)
    requires col < width && col' < width
    ensures At(row, col, width) == At(row', col', width) <==> row == row' && col == col'
  {
    if row < row' {
      RowsApart(row, row', width);
    } else if row' < row {
      RowsApart(row', row, width);
    }
  }

  lemma AtBelow(row: nat, col: nat, width: nat, rows: nat)
    requires row < rows && col < width
    ensures At(row, col, width) < At(rows, 0, width)
  {
    RowsApart(row, rows, width);
  }

  /** A dark module is black. */
  function Color(m: byte): byte {
    if m % 2 == 1 then 0x00 else 0xff
  }

  /** `now` is `was` with the pixels of rows [top, top + 8) and byte columns [left, right) set to `c`. */
  ghost predicate Filled(was: seq<byte>, now: seq<byte>, width: nat, top: nat, left: nat, right: nat, c: byte) {
    && |now| == |was|
    && forall y: nat, x: nat :: x < width && At(y, x, width) < |was| ==>
         now[At(y, x, width)] == if top <= y < top + 8 && left <= x < right then c else was[At(y, x, width)]
  }

  /** One byte of the module's first row and the seven bytes below it: eight rows in all. */
  method WriteColumn(image: array<byte>, p: nat, width: nat, r: byte, ghost top: nat, ghost col: nat)
    requires col < width && p == At(top, col, width) && At(top + 8, 0, width) <= image.Length
    modifies image
    ensures Filled(old(image[..]), image[..], width, top, col, col + 1, r)
  {
    AtBelow(top, col, width, top + 8);
    ghost var was := image[..];
    image[p] := r;
    OnePixel(was, image[..], width, top, 0, col, r);
    var pp := p;
    var k := 0;
    while k < MODULE_SIZE
      invariant 0 <= k <= MODULE_SIZE && pp == At(top + k, col, width) && |was| == image.Length
      invariant Rows(was, image[..], width, top, k + 1, col, r)
    {
      assert (top + k) * width + width == (top + k + 1) * width;
      pp := pp + width;
      AtBelow(top + k + 1, col, width, top + 8);
      ghost var before := image[..];
      image[pp] := r;
      NextPixel(was, before, image[..], width, top, k + 1, col, r);
      k := k + 1;
    }
  }

  /** The first `n` of the eight rows are written in column `col`. */
  ghost predicate Rows(was: seq<byte>, now: seq<byte>, width: nat, top: nat, n: nat, col: nat, c: byte) {
    && |now| == |was|
    && forall y: nat, x: nat :: x < width && At(y, x, width) < |was| ==>
         now[At(y, x, width)] == if top <= y < top + n && x == col then c else was[At(y, x, width)]
  }

  lemma OnePixel(was: seq<byte>, now: seq<byte>, width: nat, top: nat, n: nat, col: nat, c: byte)
    requires n == 0 && col < width && At(top, col, width) < |was| && now == was[At(top, col, width) := c]
    ensures Rows(was, now, width, top, 1, col, c)
  {
    forall y: nat, x: nat | x < width && At(y, x, width) < |was|
      ensures now[At(y, x, width)] == if top <= y < top + 1 && x == col then c else was[At(y, x, width)]
    {
      AtInjective(y, x, top, col, width);
    }
  }

  lemma NextPixel(was: seq<byte>, before: seq<byte>, now: seq<byte>, width: nat, top: nat, n: nat, col: nat, c: byte)
    requires Rows(was, before, width, top, n, col, c)
    requires col < width && At(top + n, col, width) < |was| && now == before[At(top + n, col, width) := c]
    ensures Rows(was, now, width, top, n + 1, col, c)
  {
    forall y: nat, x: nat | x < width && At(y, x, width) < |was|
      ensures now[At(y, x, width)] == if top <= y < top + (n + 1) && x == col then c else was[At(y, x, width)]
    {
      AtInjective(y, x, top + n, col, width);
    }
  }

  predicate ModuleInside(row: nat, col: nat, w: nat) {
    row < w && col < w && At(row, col, w) < w * w
  }

  /** Image byte (y, x) exists and has the colour of the module in row `row` above it. */
  predicate Shows(modules: seq<byte>, w: nat, image: seq<byte>, y: nat, x: nat, row: nat)
    requires |modules| == w * w
  {
    && At(y, x, MODULE_BYTES * w) < |image| && ModuleInside(row, x / MODULE_BYTES, w)
    && image[At(y, x, MODULE_BYTES * w)] == Color(modules[At(row, x / MODULE_BYTES, w)])
  }

  /** What is right after modules up to column `cols` of module row `row`: every earlier pixel row, and in this module
      row the eight rows of the finished columns; below them nothing has changed. */
  ghost predicate Painted(modules: seq<byte>, w: nat, was: seq<byte>, image: seq<byte>, row: nat, cols: nat)
    requires |modules| == w * w && row < w && cols <= w
  {
    && |image| == |was|
    && forall y: nat, x: nat :: x < MODULE_BYTES * w && At(y, x, MODULE_BYTES * w) < |was| ==>
         && (y < MODULE_SIZE * row ==> Shows(modules, w, image, y, x, y / MODULE_SIZE))
         && (MODULE_SIZE * row <= y < MODULE_SIZE * row + 8 && x < MODULE_BYTES * cols ==>
               Shows(modules, w, image, y, x, row))
         && (y >= MODULE_SIZE * row + 8 ==> image[At(y, x, MODULE_BYTES * w)] == was[At(y, x, MODULE_BYTES * w)])
  }

  lemma ModuleIsInside(row: nat, col: nat, w: nat)
    requires row < w && col < w
    ensures ModuleInside(row, col, w)
  {
    AtBelow(row, col, w, w);
  }

  /** Finishing one module extends the painted part by one column. */
  lemma PaintModule(modules: seq<byte>, w: nat, was: seq<byte>, before: seq<byte>, now: seq<byte>, row: nat, col: nat)
    requires |modules| == w * w && row < w && col < w
    requires Painted(modules, w, was, before, row, col)
    requires ModuleInside(row, col, w)
    requires Filled(before, now, MODULE_BYTES * w, MODULE_SIZE * row, MODULE_BYTES * col, MODULE_BYTES * (col + 1),
             Color(modules[At(row, col, w)]))
    ensures Painted(modules, w, was, now, row, col + 1)
  {
    hide At, Color;
    forall y: nat, x: nat | x < MODULE_BYTES * w && At(y, x, MODULE_BYTES * w) < |was|
      ensures y < MODULE_SIZE * row ==> Shows(modules, w, now, y, x, y / MODULE_SIZE)
      ensures MODULE_SIZE * row <= y < MODULE_SIZE * row + 8 && x < MODULE_BYTES * (col + 1) ==>
                Shows(modules, w, now, y, x, row)
      ensures y >= MODULE_SIZE * row + 8 ==> now[At(y, x, MODULE_BYTES * w)] == was[At(y, x, MODULE_BYTES * w)]
    {
    }
  }

  /** The eighth row of a finished module row becomes the first of the next and is painted over there. */
  lemma NextRow(modules: seq<byte>, w: nat, was: seq<byte>, image: seq<byte>, row: nat)
    requires |modules| == w * w && row + 1 < w && Painted(modules, w, was, image, row, w)
    ensures Painted(modules, w, was, image, row + 1, 0)
  {
    hide At, Color;
    forall y: nat, x: nat | x < MODULE_BYTES * w && At(y, x, MODULE_BYTES * w) < |was|
      ensures y < MODULE_SIZE * (row + 1) ==> Shows(modules, w, image, y, x, y / MODULE_SIZE)
    {
      if MODULE_SIZE * row <= y < MODULE_SIZE * (row + 1) {
        assert y / MODULE_SIZE == row;
      }
    }
  }

  /** Before the first module. */
  lemma NothingPainted(modules: seq<byte>, w: nat, was: seq<byte>)
    requires |modules| == w * w && w > 0
    ensures Painted(modules, w, was, was, 0, 0)
  {
  }

  /** A module's 21 byte columns. */
  method PaintOne(image: array<byte>, p: nat, w: nat, r: byte, ghost row: nat, ghost col: nat) returns (p': nat)
    requires col < w && p == At(MODULE_SIZE * row, MODULE_BYTES * col, MODULE_BYTES * w)
    requires At(MODULE_SIZE * row + 8, 0, MODULE_BYTES * w) <= image.Length
    modifies image
    ensures p' == p + MODULE_BYTES
    ensures Filled(old(image[..]), image[..], MODULE_BYTES * w, MODULE_SIZE * row, MODULE_BYTES * col,
            MODULE_BYTES * (col + 1), r)
  {
    hide Filled;
    ghost var was := image[..];
    ghost var width, top, left := MODULE_BYTES * w, MODULE_SIZE * row, MODULE_BYTES * col;
    NothingFilled(was, width, top, left, r);
    p' := p;
    var ii := 0;
    while ii < MODULE_BYTES
      invariant 0 <= ii <= MODULE_BYTES && p' == p + ii && |was| == image.Length
      invariant Filled(was, image[..], width, top, left, left + ii, r)
    {
      ghost var before := image[..];
      assert p' == At(top, left + ii, width);
      WriteColumn(image, p', MODULE_BYTES * w, r, top, left + ii);
      WidenFilled(was, before, image[..], width, top, left, left + ii, r);
      p' := p' + 1;
      ii := ii + 1;
    }
  }

  lemma NothingFilled(was: seq<byte>, width: nat, top: nat, left: nat, c: byte)
    ensures Filled(was, was, width, top, left, left, c)
  {
    hide At;
  }

  lemma WidenFilled(was: seq<byte>, before: seq<byte>, now: seq<byte>, width: nat, top: nat, left: nat, right: nat,
      c: byte)
    requires left <= right && Filled(was, before, width, top, left, right, c)
    requires Filled(before, now, width, top, right, right + 1, c)
    ensures Filled(was, now, width, top, left, right + 1, c)
  {
    hide At;
  }

  /** Room for all rows and the last module row's spill. */
  lemma ImageLargeEnough(w: nat, row: nat)
    requires row < w <= QR_CAP
    ensures At(MODULE_SIZE * row + 8, 0, MODULE_BYTES * w) <= IMAGE_SIZE
  {
    var rows, width := MODULE_SIZE * row + 8, MODULE_BYTES * w;
    if rows < 876 {
      RowsApart(rows, 876, width);
    }
    assert At(rows, 0, width) <= 876 * width <= 876 * 2625;
  }

  /** kee_transport_handle_qr (kee-transport.c:123-145): the image byte of row `y` and column `x` is the colour of
      module (y / 7, x / 21), although every module also writes an eighth row; all writes stay inside the image
      buffer, and past the spill of the last module row nothing is written. */
  method HandleQr(modules: seq<byte>, w: nat, image: array<byte>) returns (imageSize: nat)
    requires w <= QR_CAP && |modules| == w * w && image.Length == IMAGE_SIZE
    modifies image
    ensures imageSize == (MODULE_BYTES * w) * (MODULE_BYTES * w)
    ensures forall y: nat, x: nat :: y < MODULE_SIZE * w && x < MODULE_BYTES * w ==>
              Shows(modules, w, image[..], y, x, y / MODULE_SIZE)
    ensures forall y: nat, x: nat ::
              y > MODULE_SIZE * w && x < MODULE_BYTES * w && At(y, x, MODULE_BYTES * w) < image.Length ==>
              image[At(y, x, MODULE_BYTES * w)] == old(image[At(y, x, MODULE_BYTES * w)])
  {
    hide At, Painted;
    ghost var was := image[..];
    AtSteps(0, 0, w);
    var p := 0;
    var widthPixels := w * COMPONENTS * MODULE_SIZE;
    var i := 0;
    ghost var row, cols := 0, 0;
    if w > 0 {
      NothingPainted(modules, w, was);
    }
    while i < w * w
      invariant 0 <= i <= w * w && image.Length == |was| == IMAGE_SIZE && widthPixels == MODULE_BYTES * w
      invariant w > 0 ==> row < w && cols <= w && (i > 0 ==> cols > 0)
      invariant i == At(row, cols, w) && p == At(MODULE_SIZE * row, MODULE_BYTES * cols, MODULE_BYTES * w)
      invariant w > 0 ==> Painted(modules, w, was, image[..], row, cols)
    {
      ColumnOf(i, row, cols, w);
      RowAdvance(row, w);
      if i != 0 && i % w == 0 {
        p := p + widthPixels * (MODULE_SIZE - 1);
        NextRow(modules, w, was, image[..], row);
        row, cols := row + 1, 0;
      }
      var r: byte := 0xff;
      if modules[i] % 2 == 1 {
        r := 0x00;
      }
      AtSteps(row, cols, w);
      ModuleIsInside(row, cols, w);
      ImageLargeEnough(w, row);
      ghost var before := image[..];
      p := PaintOne(image, p, w, r, row, cols);
      PaintModule(modules, w, was, before, image[..], row, cols);
      cols := cols + 1;
      i := i + 1;
    }
    imageSize := widthPixels * widthPixels;
    if w > 0 {
      AllPainted(modules, w, was, image[..], row, cols);
    }
  }

  /** What a shown byte is, in pixels of seven by seven with three bytes each: black for a dark module, else white. */
  lemma ShownColor(modules: seq<byte>, w: nat, image: seq<byte>, y: nat, x: nat)
    requires |modules| == w * w && y < 7 * w && x < 21 * w && Shows(modules, w, image, y, x, y / 7)
    ensures x / 21 < w && 0 <= y / 7 * w + x / 21 < |modules| && 0 <= y * (21 * w) + x < |image|
    ensures image[y * (21 * w) + x] == if modules[y / 7 * w + x / 21] % 2 == 1 then 0x00 else 0xff
  {
  }

  lemma AtSteps(row: nat, col: nat, w: nat)
    ensures At(0, 0, w) == 0 && At(0, 0, MODULE_BYTES * w) == 0
    ensures At(row, col + 1, w) == At(row, col, w) + 1
    ensures At(MODULE_SIZE * row, MODULE_BYTES * (col + 1), MODULE_BYTES * w)
            == At(MODULE_SIZE * row, MODULE_BYTES * col, MODULE_BYTES * w) + MODULE_BYTES
  {
  }

  lemma ColumnOf(i: nat, row: nat, cols: nat, w: nat)
    requires i == At(row, cols, w) && row < w && cols <= w && i < w * w && (i > 0 ==> cols > 0)
    ensures i != 0 && i % w == 0 <==> cols == w
    ensures cols == w ==> row + 1 < w
  {
    if cols == w {
      assert i == At(row + 1, 0, w);
      RemainderIs(i, row + 1, 0, w);
    } else {
      RemainderIs(i, row, cols, w);
    }
  }

  lemma RemainderIs(i: nat, row: nat, col: nat, w: nat)
    requires col < w && i == At(row, col, w)
    ensures i % w == col
  {
    var q := i / w;
    assert i == At(q, i % w, w);
    AtInjective(row, col, q, i % w, w);
  }

  lemma RowAdvance(row: nat, w: nat)
    ensures At(MODULE_SIZE * row, MODULE_BYTES * w, MODULE_BYTES * w) + MODULE_BYTES * w * (MODULE_SIZE - 1)
            == At(MODULE_SIZE * (row + 1), 0, MODULE_BYTES * w)
    ensures At(row, w, w) == At(row + 1, 0, w)
  {
    var width := MODULE_BYTES * w;
    assert MODULE_SIZE * (row + 1) * width == MODULE_SIZE * row * width + 7 * width;
  }

  lemma AllPainted(modules: seq<byte>, w: nat, was: seq<byte>, image: seq<byte>, row: nat, cols: nat)
    requires 0 < w <= QR_CAP && |modules| == w * w && |was| == IMAGE_SIZE && row < w && cols <= w
    requires At(row, cols, w) == w * w
    requires Painted(modules, w, was, image, row, cols)
    ensures forall y: nat, x: nat :: y < MODULE_SIZE * w && x < MODULE_BYTES * w ==>
              Shows(modules, w, image, y, x, y / MODULE_SIZE)
    ensures forall y: nat, x: nat ::
              y > MODULE_SIZE * w && x < MODULE_BYTES * w && At(y, x, MODULE_BYTES * w) < |image| ==>
              image[At(y, x, MODULE_BYTES * w)] == was[At(y, x, MODULE_BYTES * w)]
  {
    LastCell(row, cols, w);
    ImageLargeEnough(w, row);
    forall y: nat, x: nat | y < MODULE_SIZE * w && x < MODULE_BYTES * w
      ensures Shows(modules, w, image, y, x, y / MODULE_SIZE)
    {
      AtBelow(y, x, MODULE_BYTES * w, MODULE_SIZE * row + 8);
      if y >= MODULE_SIZE * row {
        assert y / MODULE_SIZE == row;
      }
    }
  }

  lemma LastCell(row: nat, cols: nat, w: nat)
    requires row < w && cols <= w && At(row, cols, w) == w * w
    ensures row == w - 1 && cols == w
  {
    if cols < w {
      AtBelow(row, cols, w, w);
    } else if row + 1 < w {
      assert At(row, w, w) == At(row + 1, 0, w);
      AtBelow(row + 1, 0, w, w);
    }
  }
}
