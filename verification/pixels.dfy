/** Colours, colour tables and the resolution of palette-index planes into
    row-major RGB pixel lists, as the decoders hand them to the image library. */
module Pixels {
  import opened Wrappers
  import opened Bytes
  import opened Arith

  datatype Rgb = Rgb(r: byte, g: byte, b: byte)

  /** A decoded raster: `pixels` in row-major order, as `putdata` takes them. */
  datatype Image = Image(width: nat, height: nat, pixels: seq<Rgb>)

  /** Consecutive (R, G, B) octet triples; the source's
      `[(p[i], p[i+1], p[i+2]) for i in range(0, len(p), 3)]`, which raises
      when a partial triple is left over. */
  function Triples(bs: seq<byte>): (r: Option<seq<Rgb>>)
    ensures r.Some? <==> |bs| % 3 == 0
    ensures r.Some? ==> |r.value| == |bs| / 3
    ensures r.Some? ==> forall j :: 0 <= j < |r.value| ==>
      r.value[j] == Rgb(bs[3 * j], bs[3 * j + 1], bs[3 * j + 2])
  {
    if |bs| == 0 then Some([])
    else if |bs| < 3 then None
    else
      var rest :- Triples(bs[3..]);
      Some([Rgb(bs[0], bs[1], bs[2])] + rest)
  }

  /** The octets of a colour table, three per colour. */
  function Flatten(colors: seq<Rgb>): (r: seq<byte>)
    ensures |r| == 3 * |colors|
  {
    if |colors| == 0 then []
    else [colors[0].r, colors[0].g, colors[0].b] + Flatten(colors[1..])
  }

  /** Reading triples back from a flattened table gives the table. */
  lemma {:induction false} TriplesOfFlatten(colors: seq<Rgb>)
    ensures Triples(Flatten(colors)) == Some(colors)
  {
    if |colors| > 0 {
      var f := Flatten(colors);
      assert f[3..] == Flatten(colors[1..]);
      TriplesOfFlatten(colors[1..]);
      assert Rgb(f[0], f[1], f[2]) == colors[0];
      assert [colors[0]] + colors[1..] == colors;
    }
  }

  /** Cell `(x, y)` of a grid whose rows are `stride` apart. */
  function Cell(x: int, y: int, stride: int): int {
    x + stride * y
  }

  /** The row-major cell `(x, y)` of a `width`-wide grid. */
  lemma RowMajorIndex(x: int, y: int, width: int)
    requires 0 <= x < width && 0 <= y
    ensures Cell(x, y, width) / width == y
    ensures Cell(x, y, width) % width == x
  {
    DivModUnique(x + width * y, width, y, x);
  }

  /** The index octet that pixel `k` of a `width`-wide image reads, when
      rows are `stride` octets apart in `buf`. */
  function Source(k: nat, width: nat, stride: nat): nat
    requires width > 0
  {
    Cell(k % width, k / width, stride)
  }

  /** Pixel `(x, y)` reads an index inside `buf` that names a colour. */
  predicate CellResolves(buf: seq<byte>, c: int, colors: seq<Rgb>) {
    0 <= c < |buf| && buf[c] < |colors|
  }

  /** Every pixel of the image reads an index inside `buf` that names a
      colour of `colors`. */
  ghost predicate Resolvable(buf: seq<byte>, width: nat, height: nat, stride: nat, colors: seq<Rgb>) {
    forall x, y :: 0 <= x < width && 0 <= y < height ==> CellResolves(buf, Cell(x, y, stride), colors)
  }

  /** Entry `i` of `pixels` is the colour that octet `j` of `buf` names. */
  predicate ShowsIndex(pixels: seq<Rgb>, i: int, buf: seq<byte>, j: int, colors: seq<Rgb>) {
    0 <= i < |pixels| && CellResolves(buf, j, colors) && pixels[i] == colors[buf[j]]
  }

  /** `Resolvable`, checked pixel by pixel in list order. */
  predicate EveryPixelResolves(buf: seq<byte>, width: nat, height: nat, stride: nat, colors: seq<Rgb>) {
    width == 0 || forall k :: 0 <= k < width * height ==> CellResolves(buf, Source(k, width, stride), colors)
  }

  /** The row-major pixel list, pixel `k` being cell `(k % width, k / width)`. */
  function Picture(buf: seq<byte>, width: nat, height: nat, stride: nat, colors: seq<Rgb>): (r: seq<Rgb>)
    requires width > 0 && EveryPixelResolves(buf, width, height, stride, colors)
    ensures |r| == width * height
  {
    seq(width * height, k requires 0 <= k < width * height => colors[buf[Source(k, width, stride)]])
  }

  /** Pixel `k` of the row-major list is cell `(k % width, k / width)`. */
  lemma PixelCell(k: int, width: nat, height: nat)
    requires width > 0 && 0 <= k < width * height
    ensures 0 <= k % width < width && 0 <= k / width < height
    ensures Cell(k % width, k / width, width) == k
  {
    if k / width >= height {
      MulAtLeast(width, k / width - height + 1);
    }
  }

  /** Cell `(x, y)` is pixel `x + width*y` of the row-major list. */
  lemma CellPixel(x: int, y: int, width: nat, height: nat)
    requires 0 <= x < width && 0 <= y < height
    ensures 0 <= Cell(x, y, width) < width * height
  {
    MulAtLeast(width, height - y);
    assert width * (height - y) == width * height - width * y;
  }

  lemma EveryPixelResolvesIff(buf: seq<byte>, width: nat, height: nat, stride: nat, colors: seq<Rgb>)
    ensures EveryPixelResolves(buf, width, height, stride, colors) <==> Resolvable(buf, width, height, stride, colors)
  {
    if width > 0 {
      if Resolvable(buf, width, height, stride, colors) {
        forall k | 0 <= k < width * height
          ensures CellResolves(buf, Source(k, width, stride), colors)
        {
          PixelCell(k, width, height);
          var x, y := k % width, k / width;
          assert CellResolves(buf, Cell(x, y, stride), colors);
        }
      }
      if EveryPixelResolves(buf, width, height, stride, colors) {
        forall x, y | 0 <= x < width && 0 <= y < height
          ensures CellResolves(buf, Cell(x, y, stride), colors)
        {
          CellPixel(x, y, width, height);
          RowMajorIndex(x, y, width);
          assert Source(Cell(x, y, width), width, stride) == Cell(x, y, stride);
        }
      }
    }
  }

  lemma PictureAt(buf: seq<byte>, width: nat, height: nat, stride: nat, colors: seq<Rgb>, x: int, y: int)
    requires width > 0 && EveryPixelResolves(buf, width, height, stride, colors)
    requires 0 <= x < width && 0 <= y < height
    ensures ShowsIndex(Picture(buf, width, height, stride, colors), Cell(x, y, width), buf, Cell(x, y, stride), colors)
  {
    CellPixel(x, y, width, height);
    RowMajorIndex(x, y, width);
    assert Source(Cell(x, y, width), width, stride) == Cell(x, y, stride);
  }

  /** The source's pixel loop `for y …: for x …: colors[buf[x + stride*y]]`:
      it fails exactly when some pixel's index lies past `buf` or names no
      colour, and otherwise pixel `(x, y)` sits at `x + width*y` of the
      row-major list and has the colour its octet at `x + stride*y` names. */
  function Resolve(buf: seq<byte>, width: nat, height: nat, stride: nat, colors: seq<Rgb>): (r: Option<seq<Rgb>>)
    ensures r.Some? <==> Resolvable(buf, width, height, stride, colors)
    ensures r.Some? ==> |r.value| == width * height
    ensures r.Some? ==> forall x, y :: 0 <= x < width && 0 <= y < height ==>
      ShowsIndex(r.value, Cell(x, y, width), buf, Cell(x, y, stride), colors)
  {
    EveryPixelResolvesIff(buf, width, height, stride, colors);
    if width == 0 then Some([])
    else if EveryPixelResolves(buf, width, height, stride, colors) then
      var p := Picture(buf, width, height, stride, colors);
      assert forall x, y :: 0 <= x < width && 0 <= y < height ==>
        ShowsIndex(p, Cell(x, y, width), buf, Cell(x, y, stride), colors) by {
        forall x, y | 0 <= x < width && 0 <= y < height
          ensures ShowsIndex(p, Cell(x, y, width), buf, Cell(x, y, stride), colors)
        {
          PictureAt(buf, width, height, stride, colors, x, y);
        }
      }
      Some(p)
    else None
  }
}
