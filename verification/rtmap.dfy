/** The world-map atlas: a header of per-world compressed sizes and file
    offsets, then one zlib block per world holding a palette-index plane
    followed by that world's RGB palette. */
module Rtmap {
  import opened Wrappers
  import opened Errors
  import opened Bytes
  import opened Pixels
  import opened Zlib

  /** Worlds in the file: 5 in old releases, 8 in recent ones. */
  const RTMAP_COUNT: nat := 8
  /** Map width in pixels. */
  const RTMAP_X: nat := 3072 * 2
  /** Map height in pixels. */
  const RTMAP_Y: nat := 3072

  /** The format's dimensions, kept as parameters so that proofs never
      unfold a map of 6144 x 3072 cells. */
  datatype Layout = Layout(worlds: nat, columns: nat, rows: nat)

  const CURRENT: Layout := Layout(RTMAP_COUNT, RTMAP_X, RTMAP_Y)

  datatype Header = Header(sizeOrig: nat, sizes: seq<nat>, offsets: seq<nat>)

  /** The octets the header occupies: `size_orig`, then `worlds` sizes, then
      `worlds` offsets, four octets each. */
  function HeaderSize(worlds: nat): nat {
    4 + 8 * worlds
  }

  /** Size `i` is the u32 at `4 + 4*i`, offset `i` the u32 at
      `4 + 4*worlds + 4*i`; a short header makes `struct.unpack` raise. */
  function ReadHeader(file: seq<byte>, worlds: nat): (r: Result<Header, Error>)
    ensures r.Success? <==> HeaderSize(worlds) <= |file|
    ensures r.Success? ==> |r.value.sizes| == worlds && |r.value.offsets| == worlds
    ensures r.Success? ==> forall i :: 0 <= i < worlds ==>
      r.value.sizes[i] == U32At(file, 4 + 4 * i) && r.value.offsets[i] == U32At(file, 4 + 4 * worlds + 4 * i)
  {
    if |file| < HeaderSize(worlds) then Failure(ShortRead)
    else
      Success(Header(
        U32At(file, 0),
        seq(worlds, i requires 0 <= i < worlds => U32At(file, 4 + 4 * i)),
        seq(worlds, i requires 0 <= i < worlds => U32At(file, 4 + 4 * worlds + 4 * i))))
  }

  /** Header fields as the file stores them. */
  predicate Storable(h: Header) {
    && h.sizeOrig < 0x1_0000_0000
    && |h.sizes| == |h.offsets|
    && (forall i :: 0 <= i < |h.sizes| ==> h.sizes[i] < 0x1_0000_0000)
    && (forall i :: 0 <= i < |h.offsets| ==> h.offsets[i] < 0x1_0000_0000)
  }

  function Words(vs: seq<nat>): (r: seq<byte>)
    requires forall i :: 0 <= i < |vs| ==> vs[i] < 0x1_0000_0000
    ensures |r| == 4 * |vs|
  {
    Pow256Widths();
    if |vs| == 0 then [] else LeBytes(vs[0], 4) + Words(vs[1..])
  }

  lemma {:induction false} WordsAt(vs: seq<nat>, i: nat, prefix: seq<byte>, rest: seq<byte>)
    requires forall i :: 0 <= i < |vs| ==> vs[i] < 0x1_0000_0000
    requires i < |vs|
    ensures U32At(prefix + Words(vs) + rest, |prefix| + 4 * i) == vs[i]
  {
    Pow256Widths();
    var file := prefix + Words(vs) + rest;
    if i == 0 {
      assert file[|prefix|..|prefix| + 4] == LeBytes(vs[0], 4);
    } else {
      assert prefix + Words(vs) + rest == (prefix + LeBytes(vs[0], 4)) + Words(vs[1..]) + rest;
      WordsAt(vs[1..], i - 1, prefix + LeBytes(vs[0], 4), rest);
    }
  }

  /** The header octets that store `h`. */
  function EncodeHeader(h: Header): (r: seq<byte>)
    requires Storable(h)
    ensures |r| == HeaderSize(|h.sizes|)
  {
    Pow256Widths();
    LeBytes(h.sizeOrig, 4) + Words(h.sizes) + Words(h.offsets)
  }

  /** Reading a stored header gives it back, whatever follows it. */
  lemma ReadEncodedHeader(h: Header, rest: seq<byte>)
    requires Storable(h)
    ensures ReadHeader(EncodeHeader(h) + rest, |h.sizes|) == Success(h)
  {
    Pow256Widths();
    var w := |h.sizes|;
    var file := EncodeHeader(h) + rest;
    Within(file, [], LeBytes(h.sizeOrig, 4));
    var r := ReadHeader(file, w).value;
    forall i | 0 <= i < w
      ensures r.sizes[i] == h.sizes[i] && r.offsets[i] == h.offsets[i]
    {
      EncodedSize(h, rest, i);
      EncodedOffset(h, rest, i);
    }
    assert r.sizes == h.sizes;
    assert r.offsets == h.offsets;
  }

  lemma EncodedSize(h: Header, rest: seq<byte>, i: nat)
    requires Storable(h) && i < |h.sizes|
    ensures U32At(EncodeHeader(h) + rest, 4 + 4 * i) == h.sizes[i]
  {
    Pow256Widths();
    var lead := LeBytes(h.sizeOrig, 4);
    assert EncodeHeader(h) + rest == lead + Words(h.sizes) + (Words(h.offsets) + rest);
    WordsAt(h.sizes, i, lead, Words(h.offsets) + rest);
  }

  lemma EncodedOffset(h: Header, rest: seq<byte>, i: nat)
    requires Storable(h) && i < |h.offsets|
    ensures U32At(EncodeHeader(h) + rest, 4 + 4 * |h.sizes| + 4 * i) == h.offsets[i]
  {
    Pow256Widths();
    var lead := LeBytes(h.sizeOrig, 4) + Words(h.sizes);
    assert EncodeHeader(h) + rest == lead + Words(h.offsets) + rest;
    WordsAt(h.offsets, i, lead, rest);
  }

  /** The words of a table read off `file`: `n` u32 values from `at` on. */
  function Column(file: seq<byte>, at: nat, n: nat): (r: seq<nat>)
    requires at + 4 * n <= |file|
    ensures |r| == n
    ensures forall i :: 0 <= i < n ==> r[i] < 0x1_0000_0000
  {
    seq(n, i requires 0 <= i < n => U32At(file, at + 4 * i))
  }

  /** Storing the words read off a table gives back the table's octets. */
  lemma {:induction false} WordsOfColumn(file: seq<byte>, at: nat, n: nat)
    requires at + 4 * n <= |file|
    ensures Words(Column(file, at, n)) == file[at..at + 4 * n]
    decreases n
  {
    var vs := Column(file, at, n);
    if n > 0 {
      var next, end := at + 4, at + 4 * n;
      assert next + 4 * (n - 1) == end;
      assert Words(vs[1..]) == file[next..end] by {
        WordsOfColumn(file, next, n - 1);
        ColumnTail(file, at, n);
      }
      assert LeBytes(vs[0], 4) == file[at..next] by { WordHead(file, at, vs[0]); }
      assert Words(vs) == LeBytes(vs[0], 4) + Words(vs[1..]);
      Adjacent(file, at, next, end);
    }
  }

  lemma ColumnTail(file: seq<byte>, at: nat, n: nat)
    requires 0 < n && at + 4 * n <= |file|
    ensures Column(file, at, n)[1..] == Column(file, at + 4, n - 1)
  {
    var vs, ws := Column(file, at, n), Column(file, at + 4, n - 1);
    forall i | 0 <= i < n - 1
      ensures vs[1..][i] == ws[i]
    {
      assert at + 4 * (i + 1) == at + 4 + 4 * i;
    }
  }

  /** The first word of a table, stored again, is its four octets. */
  lemma WordHead(file: seq<byte>, at: nat, v: nat)
    requires at + 4 <= |file| && v == U32At(file, at)
    ensures v < Pow256(4) && LeBytes(v, 4) == file[at..at + 4]
  {
    Pow256Widths();
    LeBytesOfValue(file[at..at + 4]);
  }

  /** Every header that reads is a stored header: it fits the file's
      fields, and storing it gives back the file's first `4 + 8W` octets. */
  lemma HeaderIsStored(file: seq<byte>, worlds: nat)
    requires ReadHeader(file, worlds).Success?
    ensures Storable(ReadHeader(file, worlds).value)
    ensures EncodeHeader(ReadHeader(file, worlds).value) == file[..HeaderSize(worlds)]
  {
    var h := ReadHeader(file, worlds).value;
    HeaderColumns(file, worlds);
    StoredColumns(file, h.sizeOrig, worlds, h);
  }

  lemma EncodedParts(h: Header, lead: seq<byte>, sizes: seq<byte>, offsets: seq<byte>)
    requires Storable(h)
    requires LeBytes(h.sizeOrig, 4) == lead && Words(h.sizes) == sizes && Words(h.offsets) == offsets
    ensures EncodeHeader(h) == lead + sizes + offsets
  {
  }

  /** A header read off `file` holds the file's two tables of words. */
  lemma HeaderColumns(file: seq<byte>, worlds: nat)
    requires ReadHeader(file, worlds).Success?
    ensures var h := ReadHeader(file, worlds).value;
      && h.sizeOrig == U32At(file, 0)
      && h.sizes == Column(file, 4, worlds)
      && h.offsets == Column(file, 4 + 4 * worlds, worlds)
  {
  }

  lemma StoredColumns(file: seq<byte>, v: nat, worlds: nat, h: Header)
    requires HeaderSize(worlds) <= |file| && v == U32At(file, 0)
    requires h == Header(v, Column(file, 4, worlds), Column(file, 4 + 4 * worlds, worlds))
    ensures Storable(h)
    ensures EncodeHeader(h) == file[..HeaderSize(worlds)]
  {
    var n, mid := HeaderSize(worlds), 4 + 4 * worlds;
    var lead, sizes, offsets := file[0..4], file[4..mid], file[mid..n];
    assert LeBytes(v, 4) == lead by { WordHead(file, 0, v); }
    assert Words(h.sizes) == sizes by { WordsOfColumn(file, 4, worlds); }
    assert Words(h.offsets) == offsets by { WordsOfColumn(file, mid, worlds); }
    EncodedParts(h, lead, sizes, offsets);
    Adjacent(file, 0, 4, mid);
    Adjacent(file, 0, mid, n);
    assert file[..n] == file[0..n];
  }

  /** World `world`'s compressed octets: `sizes[world]` of them from
      `offsets[world]`, fewer if the file ends first. */
  function WorldSlice(file: seq<byte>, h: Header, world: nat): (r: seq<byte>)
    requires world < |h.sizes| && world < |h.offsets|
    ensures h.offsets[world] + h.sizes[world] <= |file| ==>
      r == file[h.offsets[world]..h.offsets[world] + h.sizes[world]]
  {
    Read(file, h.offsets[world], h.sizes[world])
  }

  /** The first `cells` inflated octets: one palette index per map cell. */
  function IndexPlane(data: seq<byte>, cells: nat): (r: seq<byte>)
    ensures |r| == Min(cells, |data|)
    ensures r <= data
  {
    data[..Min(cells, |data|)]
  }

  /** The octets after the index plane: the world's RGB palette. */
  function PaletteOctets(data: seq<byte>, cells: nat): (r: seq<byte>)
    ensures IndexPlane(data, cells) + r == data
  {
    data[Min(cells, |data|)..]
  }

  /** The inflated octets of a world, when the header, the world number and
      zlib all let the decoder get that far. */
  function Inflated(file: seq<byte>, world: nat, layout: Layout, inflate: Inflate): Option<seq<byte>> {
    match ReadHeader(file, layout.worlds)
    case Failure(_) => None
    case Success(h) =>
      if world >= layout.worlds then None else inflate(WorldSlice(file, h, world))
  }

  /** The inflated octets of one world as an image of `columns x rows`:
      split into index plane and palette, then row-major resolution of
      every cell. It succeeds exactly when the octets after the plane are
      whole RGB triples and every cell's index is inside the plane and
      names one of those colours; then cell `(x, y)` is pixel
      `x + columns*y` and has the colour its index names. */
  function Paint(data: seq<byte>, columns: nat, rows: nat): (r: Result<Image, Error>)
    ensures var cells := columns * rows;
      var palette := PaletteOctets(data, cells);
      && (r.Success? <==>
           |palette| % 3 == 0 && Resolvable(IndexPlane(data, cells), columns, rows, columns, Triples(palette).value))
      && (r.Success? ==>
           && r.value.width == columns && r.value.height == rows
           && |r.value.pixels| == cells
           && |Triples(palette).value| == |palette| / 3
           && forall x, y :: 0 <= x < columns && 0 <= y < rows ==>
             ShowsIndex(r.value.pixels, Cell(x, y, columns), IndexPlane(data, cells),
                        Cell(x, y, columns), Triples(palette).value))
  {
    var cells := columns * rows;
    var colors :- Triples(PaletteOctets(data, cells)).ToResult(Truncated);
    var pixels :- Resolve(IndexPlane(data, cells), columns, rows, columns, colors).ToResult(IndexOutOfRange);
    Success(Image(columns, rows, pixels))
  }

  /** `load_rtmap` for a layout: header, world number, world slice and
      inflate, then `Paint`. Any step before `Paint` that fails fails the
      whole load. */
  function LoadWorld(file: seq<byte>, world: nat, layout: Layout, inflate: Inflate): (r: Result<Image, Error>)
    ensures var d := Inflated(file, world, layout, inflate);
      && (d.None? ==> r.Failure?)
      && (d.Some? ==> r == Paint(d.value, layout.columns, layout.rows))
  {
    var h :- ReadHeader(file, layout.worlds);
    if world >= layout.worlds then Failure(IndexOutOfRange)
    else
      var data :- inflate(WorldSlice(file, h, world)).ToResult(InflateFailed);
      Paint(data, layout.columns, layout.rows)
  }

  /** `load_rtmap` with the current format's 8 worlds of 6144 x 3072 cells. */
  function LoadRtmap(file: seq<byte>, world: nat, inflate: Inflate): (r: Result<Image, Error>)
    ensures r.Success? ==> r.value.width == 6144 && r.value.height == 3072
  {
    LoadWorld(file, world, CURRENT, inflate)
  }

  /** The synthetic case: a block that inflates to exactly one index per
      cell plus 256 colours always decodes, each pixel taking the colour
      its index octet names. */
  lemma FullPaletteWorld(file: seq<byte>, world: nat, layout: Layout, inflate: Inflate)
    requires Inflated(file, world, layout, inflate).Some?
    requires |Inflated(file, world, layout, inflate).value| == layout.columns * layout.rows + 768
    ensures var d := Inflated(file, world, layout, inflate).value;
      var cells := layout.columns * layout.rows;
      var r := LoadWorld(file, world, layout, inflate);
      && r.Success?
      && |Triples(d[cells..]).value| == 256
      && forall k :: 0 <= k < cells ==> r.value.pixels[k] == Triples(d[cells..]).value[d[k]]
  {
    var d := Inflated(file, world, layout, inflate).value;
    var cells := layout.columns * layout.rows;
    assert PaletteOctets(d, cells) == d[cells..];
    var colors := Triples(d[cells..]).value;
    var plane := IndexPlane(d, cells);
    assert forall x, y :: 0 <= x < layout.columns && 0 <= y < layout.rows ==>
        CellResolves(plane, Cell(x, y, layout.columns), colors) by {
      forall x, y | 0 <= x < layout.columns && 0 <= y < layout.rows
        ensures CellResolves(plane, Cell(x, y, layout.columns), colors)
      {
        CellPixel(x, y, layout.columns, layout.rows);
      }
    }
    var pixels := LoadWorld(file, world, layout, inflate).value.pixels;
    forall k | 0 <= k < cells
      ensures pixels[k] == colors[d[k]]
    {
      PixelCell(k, layout.columns, layout.rows);
      var x, y := k % layout.columns, k / layout.columns;
      assert ShowsIndex(pixels, Cell(x, y, layout.columns), plane, Cell(x, y, layout.columns), colors);
    }
  }

  /** Decoding one world reads only the size and offset tables and that
      world's slice: the leading `size_orig` word is read but never used. */
  lemma WorldIsLocal(f1: seq<byte>, f2: seq<byte>, world: nat, layout: Layout, inflate: Inflate)
    requires HeaderSize(layout.worlds) <= |f1| && HeaderSize(layout.worlds) <= |f2|
    requires f1[4..HeaderSize(layout.worlds)] == f2[4..HeaderSize(layout.worlds)]
    requires world < layout.worlds
    requires WorldSlice(f1, ReadHeader(f1, layout.worlds).value, world)
          == WorldSlice(f2, ReadHeader(f1, layout.worlds).value, world)
    ensures LoadWorld(f1, world, layout, inflate) == LoadWorld(f2, world, layout, inflate)
  {
    var n := HeaderSize(layout.worlds);
    forall at | 4 <= at && at + 4 <= n
      ensures U32At(f1, at) == U32At(f2, at)
    {
      forall k | at <= k < at + 4
        ensures f1[k] == f2[k]
      {
        assert f1[k] == f1[4..n][k - 4];
        assert f2[k] == f2[4..n][k - 4];
      }
      assert f1[at..at + 4] == f2[at..at + 4];
    }
    var h1, h2 := ReadHeader(f1, layout.worlds).value, ReadHeader(f2, layout.worlds).value;
    assert h1.sizes == h2.sizes;
    assert h1.offsets == h2.offsets;
  }
}
