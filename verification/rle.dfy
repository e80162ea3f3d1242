/** The run-length code of type-2 sprites. A stream of runs, each a signed
    16-bit start column, a two-octet count (`hi*4 + lo`), a tag octet
    (0: literal octets follow, 1: a checkerboard shadow run) and a marker
    octet (0: end of sprite, 1: end of shadow, 2: next row). Runs are
    decoded into a zero-filled buffer whose rows are padded to a multiple
    of four octets. */
module Rle {
  import opened Wrappers
  import opened Bytes
  import opened Arith

  /** `(width + 3) & ~3`: the width rounded up to a multiple of four. */
  function Pad4(width: nat): (r: nat)
    ensures r % 4 == 0
    ensures width <= r < width + 4
  {
    (width + 3) - (width + 3) % 4
  }

  /** Python accepts `k` as an index into a list of `n` items, negative
      indices counting from the end. */
  predicate InList(k: int, n: nat) {
    -(n as int) <= k < n
  }

  /** The item a Python index `k` designates. */
  function Slot(k: int, n: nat): (i: nat)
    requires InList(k, n)
    ensures i < n
    ensures k >= 0 ==> i == k
  {
    if k < 0 then k + n else k
  }

  /** `buf[k] = v`, which raises when `k` is out of range. */
  function Store(buf: seq<byte>, k: int, v: byte): (r: Option<seq<byte>>)
    ensures r.Some? <==> InList(k, |buf|)
  {
    if InList(k, |buf|) then Some(buf[Slot(k, |buf|) := v]) else None
  }

  /** A literal run: `count` octets of `data` from `src` on are written at
      indices `dst, dst+1, …`. It fails when the stream ends early or an
      index is out of range; for a non-negative `dst` it writes exactly the
      cells `dst .. dst+count` and leaves every other cell as it was. */
  function Literal(data: seq<byte>, src: nat, buf: seq<byte>, dst: int, count: nat): (r: Option<seq<byte>>)
    ensures r.Some? <==> count == 0 || (src + count <= |data| && -|buf| <= dst && dst + count <= |buf|)
    ensures r.Some? ==> |r.value| == |buf|
    ensures r.Some? ==> forall k :: 0 <= k < |buf| ==> r.value[k] == buf[k] || r.value[k] in data
    ensures r.Some? && dst >= 0 ==> forall k :: 0 <= k < |buf| ==>
      r.value[k] == if dst <= k < dst + count then data[src + (k - dst)] else buf[k]
    decreases count
  {
    if count == 0 then Some(buf)
    else if src >= |data| then None
    else
      match Store(buf, dst, data[src])
      case None => None
      case Some(b) => Literal(data, src + 1, b, dst + 1, count - 1)
  }

  /** The checkerboard of shadow runs: odd columns on even rows, even
      columns on odd rows. */
  predicate Shaded(col: int, y: nat) {
    if y % 2 == 0 then col % 2 == 1 else col % 2 == 0
  }

  /** A shadow run over columns `col .. col+count` of row `y`, whose cells
      start at index `base`: every shaded column is set to 0. It writes
      nothing but zeros, fails exactly when a shaded column's index is out
      of range, and for a non-negative start leaves every unshaded cell as
      it was. */
  function Shadow(buf: seq<byte>, col: int, y: nat, base: int, count: nat): (r: Option<seq<byte>>)
    ensures r.Some? <==> forall c :: col <= c < col + count && Shaded(c, y) ==> InList(c + base, |buf|)
    ensures r.Some? ==> |r.value| == |buf|
    ensures r.Some? ==> forall k :: 0 <= k < |buf| ==> r.value[k] == buf[k] || r.value[k] == 0
    ensures r.Some? && col + base >= 0 ==> forall k :: 0 <= k < |buf| ==>
      r.value[k] == if col + base <= k < col + base + count && Shaded(k - base, y) then 0 else buf[k]
    decreases count
  {
    if count == 0 then Some(buf)
    else
      var b := if Shaded(col, y) then Store(buf, col + base, 0) else Some(buf);
      match b
      case None => None
      case Some(b') => Shadow(b', col + 1, y, base, count - 1)
  }

  /** The decoder's state between runs: the buffer, the read offset and the
      current row. */
  datatype Cursor = Cursor(buf: seq<byte>, offset: nat, y: nat)

  /** After one run the decoder either stops with a buffer or goes on. */
  datatype Next = Done(buf: seq<byte>) | More(cursor: Cursor) {
    function Buffer(): seq<byte> {
      match this
      case Done(b) => b
      case More(c) => c.buf
    }
  }

  /** The start column of the run at `o`. */
  function StartAt(data: seq<byte>, o: nat): (x: int)
    requires o + 5 <= |data|
    ensures -0x8000 <= x < 0x8000
  {
    I16(data[o..o + 2])
  }

  /** The length of the run at `o`, coded as `hi*4 + lo`. */
  function CountAt(data: seq<byte>, o: nat): nat
    requires o + 5 <= |data|
  {
    data[o + 2] as int * 4 + data[o + 3] as int
  }

  /** The tag octet of the run at `o`. */
  function TagAt(data: seq<byte>, o: nat): byte
    requires o + 5 <= |data|
  {
    data[o + 4]
  }

  /** Where the marker of the run at `o` sits: right after the tag, or after
      the literal octets of a literal run. */
  function MarkerAt(data: seq<byte>, o: nat): nat
    requires o + 5 <= |data|
  {
    o + 5 + (if TagAt(data, o) == 0 then CountAt(data, o) else 0)
  }

  /** The buffer after the runs' writes: a shadow run when the tag is 1 and
      the count above 1, then a literal run when the tag is 0. */
  function RunWrites(data: seq<byte>, padded: nat, c: Cursor): (r: Option<seq<byte>>)
    requires c.offset + 5 <= |data|
    ensures r.Some? ==> |r.value| == |c.buf|
  {
    var o := c.offset;
    var x, count, tag := StartAt(data, o), CountAt(data, o), TagAt(data, o);
    var base := c.y * padded;
    var shaded := if tag == 1 && count > 1 then Shadow(c.buf, x, c.y, base, count) else Some(c.buf);
    match shaded
    case None => None
    case Some(b) => if tag == 0 then Literal(data, o + 5, b, x + base, count) else Some(b)
  }

  /** What one run writes, read off its octets: a signed start column
      `x` at `o`, the count `hi*4 + lo` at `o+2` and `o+3`, and the tag at
      `o+4`. Tag 0 copies the `count` octets after the tag to cells
      `x + y*padded` on; tag 1 shades the run's columns when `count > 1`;
      any other tag, and tag 1 with a count of 0 or 1, writes nothing. */
  lemma RunWritesByTag(data: seq<byte>, padded: nat, c: Cursor)
    requires c.offset + 5 <= |data|
    ensures var o := c.offset;
      var x := I16(data[o..o + 2]);
      var count := data[o + 2] as int * 4 + data[o + 3] as int;
      var tag := data[o + 4];
      && (tag == 0 ==> RunWrites(data, padded, c) == Literal(data, o + 5, c.buf, x + c.y * padded, count))
      && (tag == 1 && count > 1 ==> RunWrites(data, padded, c) == Shadow(c.buf, x, c.y, c.y * padded, count))
      && ((tag != 0 && tag != 1) || (tag == 1 && count <= 1) ==> RunWrites(data, padded, c) == Some(c.buf))
  {
  }

  /** One pass ends in failure when the stream holds no whole run prefix at
      the cursor or the run's writes fail. */
  lemma StepFails(data: seq<byte>, padded: nat, height: nat, c: Cursor)
    ensures c.offset + 5 > |data| ==> Step(data, padded, height, c).None?
    ensures c.offset + 5 <= |data| && RunWrites(data, padded, c).None? ==> Step(data, padded, height, c).None?
  {
  }

  /** After the run at `o` the marker octet sits at `o + 5`, or at
      `o + 5 + count` after a literal run. A stream that ends before it
      fails; marker 0 ends the sprite; marker 1 is skipped; marker 2 is
      skipped and moves to the next row; any other octet is read again as
      the start of the next run, on the same row. Reaching row `height`
      ends the sprite. */
  lemma StepByMarker(data: seq<byte>, padded: nat, height: nat, c: Cursor)
    requires c.offset + 5 <= |data| && RunWrites(data, padded, c).Some?
    ensures var o := c.offset;
      var m := o + 5 + (if data[o + 4] == 0 then data[o + 2] as int * 4 + data[o + 3] as int else 0);
      var b := RunWrites(data, padded, c).value;
      var r := Step(data, padded, height, c);
      && (m >= |data| ==> r.None?)
      && (m < |data| && data[m] == 0 ==> r == Some(Done(b)))
      && (m < |data| && data[m] == 1 ==>
           r == if c.y == height then Some(Done(b)) else Some(More(Cursor(b, m + 1, c.y))))
      && (m < |data| && data[m] == 2 ==>
           r == if c.y + 1 == height then Some(Done(b)) else Some(More(Cursor(b, m + 1, c.y + 1))))
      && (m < |data| && data[m] > 2 ==>
           r == if c.y == height then Some(Done(b)) else Some(More(Cursor(b, m, c.y))))
  {
  }

  /** One pass of the decoding loop. */
  function Step(data: seq<byte>, padded: nat, height: nat, c: Cursor): (r: Option<Next>)
    ensures r.Some? ==> |r.value.Buffer()| == |c.buf|
    ensures r.Some? && r.value.More? ==>
      c.offset + 5 <= r.value.cursor.offset <= |data| && r.value.cursor.y != height
  {
    if c.offset + 5 > |data| then None
    else
      match RunWrites(data, padded, c)
      case None => None
      case Some(b) => Resume(data, MarkerAt(data, c.offset), b, c.y, height)
  }

  /** The marker octet at `m` after a run: 0 ends the picture, 2 moves to
      the next row and 1 is skipped; any other octet is read again as the
      start of the next run. Reaching row `height` ends the picture. */
  function Resume(data: seq<byte>, m: nat, b: seq<byte>, y: nat, height: nat): (r: Option<Next>)
    ensures r.Some? ==> r.value.Buffer() == b
    ensures r.Some? && r.value.More? ==> m <= r.value.cursor.offset <= |data| && r.value.cursor.y != height
  {
    if m >= |data| then None
    else if data[m] == 0 then Some(Done(b))
    else
      var y' := if data[m] == 2 then y + 1 else y;
      var o := if data[m] == 1 || data[m] == 2 then m + 1 else m;
      if y' == height then Some(Done(b)) else Some(More(Cursor(b, o, y')))
  }

  /** The decoding loop from cursor `c` on; it ends because every pass
      that goes on reads at least five more octets. */
  function Run(data: seq<byte>, padded: nat, height: nat, c: Cursor): (r: Option<seq<byte>>)
    ensures r.Some? ==> |r.value| == |c.buf|
    decreases |data| - c.offset
  {
    match Step(data, padded, height, c)
    case None => None
    case Some(Done(b)) => Some(b)
    case Some(More(c')) => Run(data, padded, height, c')
  }

  /** The cursor the decoder starts from. */
  function Start(width: nat, height: nat): Cursor {
    Cursor(Zeros(Pad4(width) * height), 0, 0)
  }

  /** `rle_decode(data, width, height)`: `None` where the source raises. */
  function RleDecode(data: seq<byte>, width: nat, height: nat): (r: Option<seq<byte>>)
    ensures r.Some? ==> |r.value| == Pad4(width) * height
  {
    Run(data, Pad4(width), height, Start(width, height))
  }

  /** Every cell holds 0 or an octet that occurs in the stream. */
  ghost predicate FromStream(buf: seq<byte>, data: seq<byte>) {
    forall k :: 0 <= k < |buf| ==> buf[k] == 0 || buf[k] in data
  }

  lemma {:induction false} RunFromStream(data: seq<byte>, padded: nat, height: nat, c: Cursor)
    requires FromStream(c.buf, data)
    ensures Run(data, padded, height, c).Some? ==> FromStream(Run(data, padded, height, c).value, data)
    decreases |data| - c.offset
  {
    match Step(data, padded, height, c)
    case None =>
    case Some(Done(b)) =>
    case Some(More(c')) => RunFromStream(data, padded, height, c');
  }

  /** A decoded sprite holds nothing but background zeros and octets taken
      from the stream. */
  lemma RleDecodeFromStream(data: seq<byte>, width: nat, height: nat)
    ensures RleDecode(data, width, height).Some? ==> FromStream(RleDecode(data, width, height).value, data)
  {
    RunFromStream(data, Pad4(width), height, Start(width, height));
  }

  /** A literal run reads nothing beyond the octets it copies. */
  lemma {:induction false} LiteralExtend(data: seq<byte>, more: seq<byte>, src: nat, buf: seq<byte>, dst: int, count: nat)
    requires Literal(data, src, buf, dst, count).Some?
    ensures Literal(data + more, src, buf, dst, count) == Literal(data, src, buf, dst, count)
    decreases count
  {
    if count > 0 {
      assert (data + more)[src] == data[src];
      var b := Store(buf, dst, data[src]).value;
      LiteralExtend(data, more, src + 1, b, dst + 1, count - 1);
    }
  }

  /** A literal run reads its octets relative to its own start. */
  lemma {:induction false} LiteralShift(pre: seq<byte>, data: seq<byte>, src: nat, buf: seq<byte>, dst: int, count: nat)
    ensures Literal(pre + data, |pre| + src, buf, dst, count) == Literal(data, src, buf, dst, count)
    decreases count
  {
    if count > 0 && src < |data| {
      assert (pre + data)[|pre| + src] == data[src];
      match Store(buf, dst, data[src])
      case None =>
      case Some(b) => LiteralShift(pre, data, src + 1, b, dst + 1, count - 1);
    }
  }

  lemma RunWritesExtend(data: seq<byte>, more: seq<byte>, padded: nat, c: Cursor)
    requires c.offset + 5 <= |data|
    requires RunWrites(data, padded, c).Some?
    ensures RunWrites(data + more, padded, c) == RunWrites(data, padded, c)
  {
    var o := c.offset;
    var d := data + more;
    assert d[o..o + 2] == data[o..o + 2];
    assert StartAt(d, o) == StartAt(data, o);
    assert CountAt(d, o) == CountAt(data, o);
    assert TagAt(d, o) == TagAt(data, o);
    var shaded := if TagAt(data, o) == 1 && CountAt(data, o) > 1
      then Shadow(c.buf, StartAt(data, o), c.y, c.y * padded, CountAt(data, o)) else Some(c.buf);
    if TagAt(data, o) == 0 {
      LiteralExtend(data, more, o + 5, shaded.value, StartAt(data, o) + c.y * padded, CountAt(data, o));
    }
  }

  lemma StepExtend(data: seq<byte>, more: seq<byte>, padded: nat, height: nat, c: Cursor)
    requires Step(data, padded, height, c).Some?
    ensures Step(data + more, padded, height, c) == Step(data, padded, height, c)
  {
    var d := data + more;
    assert c.offset + 5 <= |data|;
    RunWritesExtend(data, more, padded, c);
    var b := RunWrites(data, padded, c).value;
    assert RunWrites(d, padded, c) == Some(b);
    var m := MarkerAt(data, c.offset);
    assert MarkerAt(d, c.offset) == m by {
      assert d[c.offset + 2] == data[c.offset + 2];
      assert d[c.offset + 3] == data[c.offset + 3];
      assert d[c.offset + 4] == data[c.offset + 4];
    }
    assert m < |data|;
    assert d[m] == data[m];
    assert Resume(d, m, b, c.y, height) == Resume(data, m, b, c.y, height);
  }

  /** Decoding never reads past the marker that ends it: octets appended to a
      stream that decodes change nothing. */
  lemma {:induction false} RunExtend(data: seq<byte>, more: seq<byte>, padded: nat, height: nat, c: Cursor)
    requires Run(data, padded, height, c).Some?
    ensures Run(data + more, padded, height, c) == Run(data, padded, height, c)
    decreases |data| - c.offset
  {
    StepExtend(data, more, padded, height, c);
    match Step(data, padded, height, c)
    case Some(Done(b)) =>
    case Some(More(c')) => RunExtend(data, more, padded, height, c');
  }

  lemma RleDecodeExtend(data: seq<byte>, more: seq<byte>, width: nat, height: nat)
    requires RleDecode(data, width, height).Some?
    ensures RleDecode(data + more, width, height) == RleDecode(data, width, height)
  {
    RunExtend(data, more, Pad4(width), height, Start(width, height));
  }

  /** `c` with its read offset moved `n` octets on. */
  function Moved(c: Cursor, n: nat): (r: Cursor)
    ensures r.buf == c.buf && r.y == c.y && r.offset == c.offset + n
  {
    c.(offset := c.offset + n)
  }

  lemma RunWritesShift(pre: seq<byte>, data: seq<byte>, padded: nat, c: Cursor)
    requires c.offset + 5 <= |data|
    ensures RunWrites(pre + data, padded, Moved(c, |pre|)) == RunWrites(data, padded, c)
    ensures MarkerAt(pre + data, |pre| + c.offset) == |pre| + MarkerAt(data, c.offset)
  {
    var o := c.offset;
    var d := pre + data;
    var o2 := |pre| + o;
    assert d[o2..o2 + 2] == data[o..o + 2];
    assert d[o2 + 2] == data[o + 2] && d[o2 + 3] == data[o + 3] && d[o2 + 4] == data[o + 4];
    assert StartAt(d, o2) == StartAt(data, o);
    assert CountAt(d, o2) == CountAt(data, o);
    assert TagAt(d, o2) == TagAt(data, o);
    var shaded := if TagAt(data, o) == 1 && CountAt(data, o) > 1
      then Shadow(c.buf, StartAt(data, o), c.y, c.y * padded, CountAt(data, o)) else Some(c.buf);
    if TagAt(data, o) == 0 && shaded.Some? {
      LiteralShift(pre, data, o + 5, shaded.value, StartAt(data, o) + c.y * padded, CountAt(data, o));
    }
  }

  lemma ResumeShift(pre: seq<byte>, data: seq<byte>, m: nat, b: seq<byte>, y: nat, height: nat)
    ensures match Resume(data, m, b, y, height)
      case None => Resume(pre + data, |pre| + m, b, y, height).None?
      case Some(Done(b')) => Resume(pre + data, |pre| + m, b, y, height) == Some(Done(b'))
      case Some(More(c')) => Resume(pre + data, |pre| + m, b, y, height) == Some(More(Moved(c', |pre|)))
  {
    if m < |data| {
      assert (pre + data)[|pre| + m] == data[m];
    }
  }

  lemma StepShift(pre: seq<byte>, data: seq<byte>, padded: nat, height: nat, c: Cursor)
    ensures match Step(data, padded, height, c)
      case None => Step(pre + data, padded, height, Moved(c, |pre|)).None?
      case Some(Done(b)) => Step(pre + data, padded, height, Moved(c, |pre|)) == Some(Done(b))
      case Some(More(c')) => Step(pre + data, padded, height, Moved(c, |pre|)) == Some(More(Moved(c', |pre|)))
  {
    if c.offset + 5 <= |data| {
      RunWritesShift(pre, data, padded, c);
      match RunWrites(data, padded, c)
      case None =>
      case Some(b) => ResumeShift(pre, data, MarkerAt(data, c.offset), b, c.y, height);
    }
  }

  /** The decoder only looks forward from its cursor: octets before it change
      nothing. */
  lemma {:induction false} RunShift(pre: seq<byte>, data: seq<byte>, padded: nat, height: nat, c: Cursor)
    ensures Run(pre + data, padded, height, Moved(c, |pre|)) == Run(data, padded, height, c)
    decreases |data| - c.offset
  {
    StepShift(pre, data, padded, height, c);
    match Step(data, padded, height, c)
    case None =>
    case Some(Done(b)) =>
    case Some(More(c')) => RunShift(pre, data, padded, height, c');
  }

  /** The stream of the minimal example: one literal run of four octets at
      column 0 (count coded as 1*4 + 0), then the end marker. */
  const EXAMPLE: seq<byte> := [0, 0, 1, 0, 0, 7, 8, 9, 10, 0]

  /** On a 4x1 sprite the example reproduces its four octets, and appended
      octets are never read. */
  lemma ExampleDecodes(more: seq<byte>)
    ensures RleDecode(EXAMPLE + more, 4, 1) == Some([7, 8, 9, 10])
  {
    assert Pad4(4) == 4;
    var c := Start(4, 1);
    assert StartAt(EXAMPLE, 0) == 0 by { assert EXAMPLE[0..2] == [0, 0]; }
    assert CountAt(EXAMPLE, 0) == 4;
    var b := Literal(EXAMPLE, 5, c.buf, 0, 4).value;
    assert b == [7, 8, 9, 10];
    assert RleDecode(EXAMPLE, 4, 1) == Some([7, 8, 9, 10]);
    RleDecodeExtend(EXAMPLE, more, 4, 1);
  }

  /** Row `y` of a buffer of rows `padded` octets wide lies inside it. */
  lemma RowsFit(y: nat, padded: nat, height: nat)
    requires y < height
    ensures y * padded + padded <= padded * height
    ensures (y + 1) * padded == y * padded + padded
    ensures y + 1 == height ==> y * padded + padded == padded * height
  {
    MulSucc(y, padded);
    MulMono(y + 1, height, padded);
    assert height * padded == padded * height;
  }

  /** A start column of two zero octets is column 0. */
  lemma ColumnZero(data: seq<byte>)
    requires |data| >= 5 && data[0] == 0 && data[1] == 0
    ensures StartAt(data, 0) == 0
  {
    var bs := data[0..2];
    assert bs[1..] == [0];
    assert bs[1..][1..] == [];
    assert LeValue(bs) == 0;
  }

  /** A whole row as one literal run from column 0, ended by a next-row
      marker. */
  function RowRun(row: seq<byte>): (r: seq<byte>)
    requires |row| <= 1023
    ensures |r| == |row| + 6
    ensures r[5..5 + |row|] == row
  {
    [0, 0, |row| / 4, |row| % 4, 0] + row + [2]
  }

  /** The rows `y ..` of `buf` as one literal run each. */
  function EncodeFrom(buf: seq<byte>, padded: nat, y: nat, height: nat): seq<byte>
    requires |buf| == padded * height && padded <= 1023 && y <= height
    decreases height - y
  {
    if y == height then []
    else
      RowsFit(y, padded, height);
      RowRun(buf[y * padded..y * padded + padded]) + EncodeFrom(buf, padded, y + 1, height)
  }

  /** A stream that decodes to `buf`; a sprite with no rows gets an empty
      literal run ended by the end marker. */
  function Encode(buf: seq<byte>, padded: nat, height: nat): seq<byte>
    requires |buf| == padded * height && padded <= 1023
  {
    if height == 0 then [0, 0, 0, 0, 0, 0] else EncodeFrom(buf, padded, 0, height)
  }

  /** `b` with the octets at `at ..` replaced by `row`. */
  function Placed(b: seq<byte>, row: seq<byte>, at: nat): (r: seq<byte>)
    requires at + |row| <= |b|
    ensures |r| == |b|
    ensures forall k :: 0 <= k < |b| ==> r[k] == if at <= k < at + |row| then row[k - at] else b[k]
  {
    b[..at] + row + b[at + |row|..]
  }

  /** One pass over a row run fills row `y` and moves to the next row. */
  lemma RowStep(row: seq<byte>, rest: seq<byte>, padded: nat, height: nat, b: seq<byte>, y: nat)
    requires |row| == padded <= 1023 && |b| == padded * height && y < height
    requires y * padded + padded <= |b|
    ensures var b' := Placed(b, row, y * padded);
      Step(RowRun(row) + rest, padded, height, Cursor(b, 0, y))
        == Some(if y + 1 == height then Done(b') else More(Cursor(b', padded + 6, y + 1)))
  {
    RowsFit(y, padded, height);
    var data := RowRun(row) + rest;
    var c := Cursor(b, 0, y);
    ColumnZero(data);
    assert CountAt(data, 0) == padded;
    assert TagAt(data, 0) == 0;
    var b' := Placed(b, row, y * padded);
    var lit := Literal(data, 5, b, y * padded, padded);
    assert lit.Some?;
    forall k | 0 <= k < |b| ensures lit.value[k] == b'[k] {
      if y * padded <= k < y * padded + padded {
        assert data[5 + (k - y * padded)] == row[k - y * padded];
      }
    }
    assert lit.value == b';
    assert RunWrites(data, padded, c) == Some(b');
    assert MarkerAt(data, 0) == 5 + padded;
    assert data[5 + padded] == 2;
  }

  /** Placing row `at ..` of `buf` into a buffer that agrees with `buf`
      before `at` makes it agree up to the end of that row. */
  lemma PlacedPrefix(b: seq<byte>, buf: seq<byte>, at: nat, width: nat)
    requires |b| == |buf| && at + width <= |buf| && b[..at] == buf[..at]
    ensures Placed(b, buf[at..at + width], at)[..at + width] == buf[..at + width]
  {
    var b' := Placed(b, buf[at..at + width], at);
    forall k | 0 <= k < at + width ensures b'[k] == buf[k] {
      if k < at { assert b[..at][k] == buf[..at][k]; }
    }
  }

  /** Decoding a row run and then `rest` is decoding `rest` from the next
      row with that row filled in. */
  lemma RunOnRow(row: seq<byte>, rest: seq<byte>, padded: nat, height: nat, b: seq<byte>, y: nat)
    requires |row| == padded <= 1023 && |b| == padded * height && y < height
    requires y * padded + padded <= |b|
    ensures var b' := Placed(b, row, y * padded);
      Run(RowRun(row) + rest, padded, height, Cursor(b, 0, y))
        == if y + 1 == height then Some(b') else Run(rest, padded, height, Cursor(b', 0, y + 1))
  {
    RowStep(row, rest, padded, height, b, y);
    var b' := Placed(b, row, y * padded);
    if y + 1 < height {
      var c' := Cursor(b', 0, y + 1);
      RunShift(RowRun(row), rest, padded, height, c');
      assert Moved(c', |RowRun(row)|) == Cursor(b', padded + 6, y + 1);
    }
  }

  /** Decoding the run of row `y` fills that row from `buf` and leaves the
      rows after it to the runs that follow. */
  lemma RowAdvance(buf: seq<byte>, padded: nat, height: nat, y: nat, b: seq<byte>, at: nat)
    requires |buf| == padded * height && padded <= 1023 && y < height
    requires |b| == padded * height && at == y * padded && at + padded <= |b|
    ensures var b' := Placed(b, buf[at..at + padded], at);
      Run(EncodeFrom(buf, padded, y, height), padded, height, Cursor(b, 0, y))
        == if y + 1 == height then Some(b') else Run(EncodeFrom(buf, padded, y + 1, height), padded, height, Cursor(b', 0, y + 1))
  {
    var row := buf[at..at + padded];
    var rest := EncodeFrom(buf, padded, y + 1, height);
    var data := EncodeFrom(buf, padded, y, height);
    assert data == RowRun(row) + rest;
    RunOnRow(row, rest, padded, height, b, y);
  }

  /** Filling row `y` of a buffer that agrees with `buf` on the rows before
      it makes it agree on row `y` too, and on the whole of `buf` after the
      last row. */
  lemma RowFilled(buf: seq<byte>, padded: nat, height: nat, y: nat, b: seq<byte>, at: nat)
    requires |buf| == padded * height && y < height && at == y * padded
    requires |b| == |buf| && b[..at] == buf[..at]
    ensures at + padded <= |b| && at + padded == (y + 1) * padded
    ensures var b' := Placed(b, buf[at..at + padded], at);
      && |b'| == |buf| && b'[..at + padded] == buf[..at + padded]
      && (y + 1 == height ==> b' == buf)
  {
    RowsFit(y, padded, height);
    PlacedPrefix(b, buf, at, padded);
    var b' := Placed(b, buf[at..at + padded], at);
    assert b'[..|b'|] == b' && buf[..|buf|] == buf;
  }

  lemma {:induction false} RunEncoded(buf: seq<byte>, padded: nat, height: nat, y: nat, b: seq<byte>, at: nat)
    requires |buf| == padded * height && padded <= 1023 && y < height && at == y * padded
    requires |b| == |buf| && b[..at] == buf[..at]
    ensures Run(EncodeFrom(buf, padded, y, height), padded, height, Cursor(b, 0, y)) == Some(buf)
    decreases height - y
  {
    RowFilled(buf, padded, height, y, b, at);
    RowAdvance(buf, padded, height, y, b, at);
    if y + 1 < height {
      RunEncoded(buf, padded, height, y + 1, Placed(b, buf[at..at + padded], at), at + padded);
    }
  }

  /** Decoding undoes `Encode`: every buffer of `height` padded rows is the
      decoding of some stream, as long as a row's length fits the count
      octets. */
  lemma RleDecodeEncode(buf: seq<byte>, width: nat, height: nat)
    requires |buf| == Pad4(width) * height && Pad4(width) <= 1023
    ensures RleDecode(Encode(buf, Pad4(width), height), width, height) == Some(buf)
  {
    var padded := Pad4(width);
    if height == 0 {
      var data := Encode(buf, padded, height);
      ColumnZero(data);
      assert RunWrites(data, padded, Start(width, height)) == Some([]);
      assert buf == [];
    } else {
      RunEncoded(buf, padded, height, 0, Zeros(padded * height), 0);
    }
  }

  /** A shadow run applied to `result` in place; `false` where the source
      raises. */
  method ShadowInPlace(result: array<byte>, x: int, y: nat, base: int, count: nat) returns (ok: bool)
    modifies result
    ensures ok <==> Shadow(old(result[..]), x, y, base, count).Some?
    ensures ok ==> result[..] == Shadow(old(result[..]), x, y, base, count).value
  {
    ghost var before := result[..];
    var i := 0;
    while i < count
      invariant 0 <= i <= count
      invariant Shadow(result[..], x + i, y, base, count - i) == Shadow(before, x, y, base, count)
    {
      if Shaded(x + i, y) {
        if !InList(x + i + base, result.Length) {
          return false;
        }
        result[Slot(x + i + base, result.Length)] := 0;
      }
      i := i + 1;
    }
    return true;
  }

  /** A literal run copied into `result` in place; `false` where the source
      raises. */
  method LiteralInPlace(data: seq<byte>, src: nat, result: array<byte>, dst: int, count: nat) returns (ok: bool)
    modifies result
    ensures ok <==> Literal(data, src, old(result[..]), dst, count).Some?
    ensures ok ==> result[..] == Literal(data, src, old(result[..]), dst, count).value
  {
    ghost var before := result[..];
    var i := 0;
    while i < count
      invariant 0 <= i <= count
      invariant Literal(data, src + i, result[..], dst + i, count - i) == Literal(data, src, before, dst, count)
    {
      if src + i >= |data| || !InList(dst + i, result.Length) {
        return false;
      }
      result[Slot(dst + i, result.Length)] := data[src + i];
      i := i + 1;
    }
    return true;
  }

  /** The writes of the run at `offset`, in place. */
  method WritesInPlace(data: seq<byte>, padded: nat, result: array<byte>, offset: nat, y: nat) returns (ok: bool)
    requires offset + 5 <= |data|
    modifies result
    ensures ok <==> RunWrites(data, padded, Cursor(old(result[..]), offset, y)).Some?
    ensures ok ==> result[..] == RunWrites(data, padded, Cursor(old(result[..]), offset, y)).value
  {
    var x := StartAt(data, offset);
    var count := CountAt(data, offset);
    var tag := data[offset + 4];
    var base := y * padded;
    ok := true;
    if tag == 1 && count > 1 {
      ok := ShadowInPlace(result, x, y, base, count);
    }
    if ok && tag == 0 {
      ok := LiteralInPlace(data, offset + 5, result, x + base, count);
    }
  }

  /** `rle_decode` as the source runs it: one zero-filled array updated in
      place, a read offset and a row counter. It computes `RleDecode`, with
      `None` where the source raises. */
  method DecodeInPlace(data: seq<byte>, width: nat, height: nat) returns (r: Option<seq<byte>>)
    ensures r == RleDecode(data, width, height)
  {
    var padded := Pad4(width);
    var result := new byte[padded * height](_ => 0);
    assert result[..] == Zeros(padded * height);
    var offset: nat := 0;
    var y: nat := 0;
    while true
      invariant result.Length == padded * height
      invariant Run(data, padded, height, Cursor(result[..], offset, y)) == RleDecode(data, width, height)
      decreases |data| - offset
    {
      if offset + 5 > |data| {
        return None;
      }
      ghost var c := Cursor(result[..], offset, y);
      var ok := WritesInPlace(data, padded, result, offset, y);
      if !ok {
        return None;
      }
      var m := MarkerAt(data, offset);
      if m >= |data| {
        return None;
      }
      if data[m] == 0 {
        return Some(result[..]);
      }
      if data[m] == 1 {
        offset := m + 1;
      } else if data[m] == 2 {
        y := y + 1;
        offset := m + 1;
      } else {
        offset := m;
      }
      assert Step(data, padded, height, c) == Some(if y == height then Done(result[..]) else More(Cursor(result[..], offset, y)));
      if y == height {
        return Some(result[..]);
      }
    }
  }
}
