# t4c-utils asset decoders in Dafny

This project models the binary asset decoders of t4c-utils, an extractor for the
game client of The 4th Coming. Each decoder takes a byte string and turns it into
records or pixels:

- **Palette file** (`load_sprite_palettes`) and **sprite-id file**
  (`load_sprite_ids`). Both are a checksummed container:
  - a 41-octet preamble carrying an MD5 digest split in two, `size_orig` and
    `size_comp`;
  - a zlib payload of `size_comp` octets, checked against the digest and then
    deciphered with a single-octet XOR key (`0x66` for palettes, `0x99` for ids);
  - one trailing octet.

  The plain text is cut into fixed records: 832-octet palettes (a name and
  256 RGB colours) and 332-octet sprite records (name, path, u32 offset and u64
  archive number).
- **World map** (`load_rtmap`). A header of per-world sizes and offsets. Each
  world is one zlib block: a 6144 x 3072 index plane followed by that world's
  RGB palette, resolved into a row-major image.
- **Sprite archives** (`sprite_data.py`).
  - A 28-octet header, deciphered with a repeating 28-octet key, gives the
    type, the size and the payload length.
  - Type 1 stores raw indices. Type 2 is run-length coded, with a zlib layer
    above 180 pixels. Type 9 is zlib-compressed once or twice.
  - The run-length decoder (`rle_decode`) writes literal runs, checkerboard
    shadow runs and row/end markers into a buffer whose rows are padded to a
    multiple of four.
  - The palette is chosen by a name heuristic (`find_best_palette`).
  - `load_sprites` yields the decodable sprites of a batch in order.

Modules:

- `Wrappers`, `Errors`, `Zlib` (wrappers.dfy). `Option`/`Result`, the exceptions
  that escape to callers, and the inflate collaborator.
- `Arith`, `Bytes` and `Text`. Octets, XOR, little-endian fields, file reads,
  and NUL-padded text fields.
- `Container`. The shared checksummed container.
- `SpritePalette` and `SpriteId`. The two record formats.
- `Pixels`. Colour triples and resolution of index planes into pixels.
- `Rtmap`. The world map.
- `Rle`. The run-length decoder:
  - a functional definition;
  - an in-place method `DecodeInPlace` proved equal to it;
  - an encoder proved to be its right inverse.
- `SpriteData` and `BestPalette`. Headers, codecs, dispatch, batch, palette
  choice.

Conventions:

- zlib and MD5 are function-typed parameters.
  - `inflate` returns `None` where `zlib.decompress` raises.
  - `md5` stands for `hashlib.md5(…).hexdigest()`.
- A file is the sequence of its octets.
- An exception that escapes the source function is a `Failure(error)`.
- An exception caught by `load_sprite`'s `try` is the codec's `None`.
- A function that returns nothing on a checksum mismatch gives `Success(None)`.
- Python's negative list indices are modelled as Python resolves them: an
  index `k` with `-n <= k < 0` designates item `n + k`.

Where the code and its prose description differ, the model follows the code:

- Digest check. The digest is compared as exact text (t4c_utils/sprite_palette.py:31),
  not case-insensitively.
- Partial record. A trailing partial record is not reported as a malformed
  record stream. `struct.unpack` raises on the short slice
  (t4c_utils/sprite_palette.py:44, t4c_utils/sprite_id.py:46); the model's
  `Truncated` error stands for that exception.
- Type 9. The second inflate of type 9 is applied to the output of the first,
  less its first four octets (t4c_utils/sprite_data.py:109).
- Type 2. `load_sprite` reads the run-length buffer with the unpadded width
  as row stride (t4c_utils/sprite_data.py:95), and `SpriteData.LoadSprite`
  does the same. The padded reading appears only as the corrected half of the
  finding below.
- Batch failures. A sprite whose header cannot be read, or whose palette cannot
  be found, raises out of `load_sprites` and ends the batch. The code does not
  skip it and carry on.

## Model

| member | source | states |
|---|---|---|
| Bytes.BitXorInvolution | t4c_utils/sprite_palette.py:38 | exclusive-or with the same value twice gives back any n-bit value |
| Bytes.XorInvolution | t4c_utils/sprite_data.py:128 | an octet enciphered twice with the same key octet is the octet itself |
| Bytes.XorAll | t4c_utils/sprite_id.py:38 | the single-key cipher keeps the length of the data |
| Bytes.XorAllInvolution | t4c_utils/sprite_palette.py:38 | the single-key cipher is its own inverse |
| Bytes.LeValue | t4c_utils/sprite_id.py:46-47 | an n-octet little-endian field is below 256^n: a u32 is below 2^32, a u64 below 2^64 |
| Bytes.LeBytes | t4c_utils/sprite_id.py:46-47 | the n-octet little-endian encoding of a value has n octets and decodes back to the value |
| Bytes.LeBytesOfValue | t4c_utils/sprite_id.py:46-47 | re-encoding a decoded little-endian field reproduces its octets |
| Bytes.I16 | t4c_utils/sprite_data.py:135-138 | a `<h` field lies in [-32768, 32768) and is the field's unsigned value taken modulo 2^16 |
| Bytes.I16Bytes | t4c_utils/sprite_data.py:135-138 | the two-octet two's-complement encoding decodes back to the value |
| Bytes.I16OfBytes | t4c_utils/sprite_data.py:135-138 | re-encoding a decoded `<h` field reproduces its two octets |
| Bytes.Read | t4c_utils/sprite_palette.py:24 | `seek` then `read(n)` gives the octets from the position on: n of them when the file holds them, fewer near its end, none past it |
| Bytes.TailIsSlice | t4c_utils/sprite_data.py:105 | `data[4:]` is the suffix after the first four octets, or nothing on shorter data: the data is its first `min(4, len)` octets followed by it |
| Text.EncodeDecode | t4c_utils/sprite_palette.py:43 | decoding a name field loses nothing: its characters are octet text and encode back to the field's octets |
| Text.Encode | t4c_utils/sprite_palette.py:43 | the octets of one-octet text decode back to the text |
| Text.DecodeZeros | t4c_utils/sprite_palette.py:43 | zero octets decode to NUL characters |
| Text.LeadingNuls | t4c_utils/sprite_palette.py:43 | counts exactly the NULs at the start of the text |
| Text.TrailingNuls | t4c_utils/sprite_palette.py:43 | counts exactly the NULs at the end of the text |
| Text.StripNul | t4c_utils/sprite_palette.py:43 | `strip('\x00')` leaves text with a NUL at neither end, no longer than before, and changes nothing on such text |
| Text.StripNulFrame | t4c_utils/sprite_id.py:44-45 | stripping removes exactly the NULs framing NUL-free-ended text, on both sides |
| Text.Field | t4c_utils/sprite_id.py:44-45 | a padded text field has exactly the field's width |
| Text.FieldRoundTrip | t4c_utils/sprite_id.py:44-45 | decoding and stripping a NUL-padded field gives the text stored in it |
| Container.DigestOctets | t4c_utils/sprite_palette.py:13-21 | the stored digest is octets 0..16 followed by 24..40, 32 octets, the 41st octet being dropped |
| Container.ReadHeader | t4c_utils/sprite_palette.py:13-21 | the preamble reads when the file has 41 octets and the digest octets are ASCII; the digest has 32 characters, and `size_orig` (at 16) and `size_comp` (at 20) are u32 values |
| Container.Preamble | t4c_utils/sprite_id.py:14-22 | a storable header is held in exactly 41 preamble octets |
| Container.ReadPreamble | t4c_utils/sprite_id.py:14-22 | reading the preamble of a stored header gives the header back, whatever follows |
| Container.Payload | t4c_utils/sprite_palette.py:24 | the compressed payload is `file[41 .. 41+size_comp]` when the file holds it, and never longer than `size_comp` |
| Container.Open | t4c_utils/sprite_palette.py:24-38 | opening fails exactly when the preamble or the inflate fails; it yields nothing exactly when the digest of the inflated octets differs from the stored one, and otherwise yields octets whose encipherment is the inflated data |
| Container.Record | t4c_utils/sprite_palette.py:42-44 | record k of a record stream is a slice exactly one record long |
| Container.RecordOfTail | t4c_utils/sprite_palette.py:42 | record k of the stream after its first record is record k+1 of the stream |
| Container.Split | t4c_utils/sprite_id.py:42 | cutting into records succeeds exactly on a whole number of records, gives `len/size` of them and keeps record k at octets `size*k ..` |
| Container.SplitCons | t4c_utils/sprite_id.py:42 | the records of a stream are its first record followed by the records of the rest |
| Container.Sealed | t4c_utils/sprite_palette.py:13-51 | a well-formed container is preamble, a `size_comp`-octet payload, a trailing octet and anything after |
| Container.LoadSealed | t4c_utils/sprite_palette.py:10-53 | on a well-formed container the loader fails on an inflate failure, yields nothing on a digest mismatch, and otherwise yields the records parsed from the deciphered payload |
| Container.Load | t4c_utils/sprite_palette.py:10-53 | a failing preamble read or inflate raises its own error; a digest mismatch yields nothing; after a match a failing parse raises its error, and the parsed records are yielded only when an octet follows the payload, else the missing trailer raises |
| Container.LoadIgnoresSizeOrigAndTrailer | t4c_utils/sprite_id.py:16-50 | the loader's result depends on neither `size_orig` nor the trailing octet's value |
| SpritePalette.DecodePalette | t4c_utils/sprite_palette.py:43-48 | a palette record has a NUL-stripped name of at most 64 characters and exactly 256 colours, colour j being octets `64+3j`, `65+3j`, `66+3j` |
| SpritePalette.ParsePalettes | t4c_utils/sprite_palette.py:42-49 | parsing succeeds exactly on a multiple of 832 octets, gives `len/832` palettes, and palette k is decoded from octets `832k .. 832k+832` |
| SpritePalette.LoadSpritePalettes | t4c_utils/sprite_palette.py:10-53 | nothing exactly on a digest mismatch; a payload that is not whole 832-octet records raises; yielded palettes are those of the payload deciphered with 0x66 |
| SpritePalette.EncodePalette | t4c_utils/sprite_palette.py:42-49 | a storable palette is held in exactly 832 octets |
| SpritePalette.DecodeEncodePalette | t4c_utils/sprite_palette.py:43-48 | decoding an encoded palette gives it back |
| SpritePalette.SerializePalettes | t4c_utils/sprite_palette.py:42-49 | N palettes are held in 832*N octets |
| SpritePalette.SerializedRecord | t4c_utils/sprite_palette.py:42-49 | record k of the serialised palettes is the encoding of palette k |
| SpritePalette.SerializedParses | t4c_utils/sprite_palette.py:42-49 | serialised palettes parse, into as many palettes as were serialised |
| SpritePalette.SerializedDecodesAt | t4c_utils/sprite_palette.py:42-49 | slot k of serialised palettes decodes to palette k |
| SpritePalette.ParseSerializedPalettes | t4c_utils/sprite_palette.py:42-49 | serialising palettes and parsing them gives the same palettes in the same order |
| SpritePalette.SealedPalettes | t4c_utils/sprite_palette.py:28-38 | with a stored digest that is not the payload's the file yields no palettes; with a matching digest it yields the palettes of the payload deciphered with 0x66 |
| SpritePalette.PalettesIgnoreSizeOrigAndTrailer | t4c_utils/sprite_palette.py:15-51 | the palette file's result depends on neither `size_orig` nor the value of the trailing octet |
| SpriteId.DecodeRecord | t4c_utils/sprite_id.py:43-47 | name and path are NUL-stripped and fit 64 and 256 characters; `index` is below 2^32 and `dda` below 2^64 |
| SpriteId.ParseRecords | t4c_utils/sprite_id.py:42-48 | parsing succeeds exactly on a multiple of 332 octets, gives `len/332` records, and record k is decoded from octets `332k .. 332k+332` |
| SpriteId.LoadSpriteIds | t4c_utils/sprite_id.py:10-52 | nothing exactly on a digest mismatch; a payload that is not whole 332-octet records raises; yielded records are those of the payload deciphered with 0x99 |
| SpriteId.EncodeRecord | t4c_utils/sprite_id.py:43-47 | a storable record is held in exactly 332 octets |
| SpriteId.EncodedSlices | t4c_utils/sprite_id.py:44-47 | an encoded record holds the name at 0..64, the path at 64..320, the index at 320..324 and the archive number at 324..332 |
| SpriteId.DecodeEncodeRecord | t4c_utils/sprite_id.py:44-47 | decoding an encoded record gives it back |
| SpriteId.SerializeRecords | t4c_utils/sprite_id.py:42-48 | N records are held in 332*N octets |
| SpriteId.SerializedRecord | t4c_utils/sprite_id.py:42-48 | record slot k of the serialised records is the encoding of record k |
| SpriteId.SerializedParses | t4c_utils/sprite_id.py:42-48 | serialised records parse, into as many records as were serialised |
| SpriteId.SerializedDecodesAt | t4c_utils/sprite_id.py:42-48 | slot k of serialised records decodes to record k |
| SpriteId.ParseSerializedRecords | t4c_utils/sprite_id.py:42-48 | serialising N records into 332-octet slots and parsing them gives the same N records |
| SpriteId.SealedSpriteIds | t4c_utils/sprite_id.py:29-38 | with a stored digest that is not the payload's the file yields no records; with a matching digest it yields the records of the payload deciphered with 0x99 |
| SpriteId.SpriteIdsIgnoreSizeOrigAndTrailer | t4c_utils/sprite_id.py:16-50 | the sprite-id file's result depends on neither `size_orig` nor the value of the trailing octet |
| Pixels.Triples | t4c_utils/rtmap.py:41-44 | the triple list exists exactly when the octets are a multiple of 3, has `len/3` entries, and entry j is `(p[3j], p[3j+1], p[3j+2])` |
| Pixels.Flatten | t4c_utils/sprite_palette.py:44-48 | a colour table is stored in three octets per colour |
| Pixels.TriplesOfFlatten | t4c_utils/rtmap.py:41-44 | reading triples from a flattened colour table gives the table |
| Pixels.RowMajorIndex | t4c_utils/rtmap.py:46-49 | cell `x + width*y` of a row-major grid is column x of row y |
| Pixels.PixelCell | t4c_utils/rtmap.py:46-49 | pixel k of the row-major list is a cell of the grid, namely `(k % width, k / width)` |
| Pixels.CellPixel | t4c_utils/rtmap.py:46-49 | every cell of the grid is one of its `width*height` pixels |
| Pixels.EveryPixelResolvesIff | t4c_utils/rtmap.py:46-49 | checking the pixels in list order and checking every cell of the grid agree |
| Pixels.Picture | t4c_utils/rtmap.py:46-49 | the row-major pixel list of a `width x height` grid has `width*height` entries |
| Pixels.PictureAt | t4c_utils/rtmap.py:46-49 | cell `(x, y)` of the row-major list has the colour of the index at `x + stride*y` |
| Pixels.Resolve | t4c_utils/rtmap.py:46-49 | the nested pixel loop fails exactly when some cell's index lies outside the plane or names no colour; otherwise it gives `width*height` pixels, pixel `x + width*y` having the colour named by the index at `x + stride*y` |
| Rtmap.HeaderIsStored | t4c_utils/rtmap.py:23-29 | every header that reads fits its u32 fields, and storing it gives back the file's first `4 + 8W` octets, so `size_orig`, the W sizes and the W offsets are read from consecutive words |
| Rtmap.WordsOfColumn | t4c_utils/rtmap.py:25-29 | storing the W words read off a table gives back the table's `4W` octets |
| Rtmap.Words | t4c_utils/rtmap.py:25-29 | a table of W words is held in 4W octets |
| Rtmap.WordsAt | t4c_utils/rtmap.py:25-29 | word i of a stored table is read back at offset 4i of the table |
| Rtmap.EncodeHeader | t4c_utils/rtmap.py:23-29 | a header of W worlds is held in `4 + 8W` octets |
| Rtmap.EncodedSize | t4c_utils/rtmap.py:25-26 | size i of a stored header is read back |
| Rtmap.EncodedOffset | t4c_utils/rtmap.py:28-29 | offset i of a stored header is read back |
| Rtmap.ReadEncodedHeader | t4c_utils/rtmap.py:23-29 | reading a stored header gives it back, whatever follows it |
| Rtmap.WorldSlice | t4c_utils/rtmap.py:31-33 | world w's compressed octets are `file[offsets[w] .. offsets[w]+sizes[w]]` when the file holds them |
| Rtmap.IndexPlane | t4c_utils/rtmap.py:37 | the index plane is the first `X*Y` inflated octets, or all of them when there are fewer |
| Rtmap.PaletteOctets | t4c_utils/rtmap.py:39 | index plane and palette octets together are exactly the inflated octets |
| Rtmap.Paint | t4c_utils/rtmap.py:37-49 | the world paints exactly when the palette octets are whole triples and every cell's index is in the plane and names one of them; the image is then `X x Y` with `X*Y` pixels, pixel `x + X*y` showing the colour of index `x + X*y` |
| Rtmap.LoadWorld | t4c_utils/rtmap.py:20-49 | a short header, a world number past the table or a failed inflate fails the load; otherwise the load is the painting of the inflated world |
| Rtmap.LoadRtmap | t4c_utils/rtmap.py:11-17 | the current format's image is 6144 x 3072 |
| Rtmap.FullPaletteWorld | t4c_utils/rtmap.py:37-49 | a world inflating to `X*Y + 768` octets always decodes, into 256 colours, with pixel k the colour that index octet k names |
| Rtmap.WorldIsLocal | t4c_utils/rtmap.py:23-49 | decoding world w depends only on the size and offset tables and that world's slice: two files that agree there, whatever their leading `size_orig` word, decode world w alike, so `size_orig` is read but unused |
| Rle.Pad4 | t4c_utils/sprite_data.py:30 | `(width + 3) & ~3` is the least multiple of 4 at or above the width |
| Rle.Slot | t4c_utils/sprite_data.py:45 | a Python index designates an item of the list, and a non-negative index designates itself |
| Rle.Store | t4c_utils/sprite_data.py:51 | an assignment to `result[k]` succeeds exactly when Python accepts k as an index |
| Rle.Literal | t4c_utils/sprite_data.py:48-51 | a literal run succeeds exactly when its octets are in the stream and its indices in the buffer; cells `dst .. dst+count` receive the next `count` stream octets in order and every other cell is unchanged |
| Rle.Shadow | t4c_utils/sprite_data.py:40-47 | a shadow run writes only zeros, fails exactly when a shaded cell is out of range, writes at odd columns on even rows and even columns on odd rows, and leaves every other cell unchanged |
| Rle.StartAt | t4c_utils/sprite_data.py:34 | the run's start column is a signed 16-bit value |
| Rle.RunWritesByTag | t4c_utils/sprite_data.py:34-51 | from the run's octets (a `<h` start column, the count `hi*4 + lo`, the tag): tag 0 copies the `count` octets after the tag to the row's cells from the start column; tag 1 shades the run when its count is above 1; any other tag, and tag 1 with a count of 0 or 1, writes nothing |
| Rle.Step | t4c_utils/sprite_data.py:33-67 | one pass keeps the buffer's length, and a pass that goes on moves the read offset at least five octets forward and is not on row `height` |
| Rle.StepByMarker | t4c_utils/sprite_data.py:48-67 | the marker sits right after the tag, or `count` octets later after a literal run; a stream that ends before it fails; marker 0 ends the sprite; marker 1 is skipped on the same row; marker 2 is skipped and moves to the next row; any other octet is re-read as the next run's start on the same row; reaching row `height` ends the sprite |
| Rle.StepFails | t4c_utils/sprite_data.py:34-51 | a pass fails when fewer than five octets of run prefix remain or the run's writes fail |
| Rle.Run | t4c_utils/sprite_data.py:33-67 | the decoding loop keeps the buffer's length |
| Rle.RleDecode | t4c_utils/sprite_data.py:23-69 | a decoded sprite has exactly `Pad4(width) * height` octets |
| Rle.RunFromStream | t4c_utils/sprite_data.py:33-67 | the loop keeps every cell either zero or an octet of the stream |
| Rle.RleDecodeFromStream | t4c_utils/sprite_data.py:31-51 | every decoded cell is a background zero or an octet taken from the stream |
| Rle.LiteralExtend | t4c_utils/sprite_data.py:48-51 | a literal run reads nothing after the octets it copies |
| Rle.RunWritesExtend | t4c_utils/sprite_data.py:34-51 | a run's writes are unchanged by octets appended to the stream |
| Rle.StepExtend | t4c_utils/sprite_data.py:33-67 | one pass is unchanged by octets appended to the stream |
| Rle.RunExtend | t4c_utils/sprite_data.py:53-67 | the loop never reads past the marker that ends it |
| Rle.RleDecodeExtend | t4c_utils/sprite_data.py:55-57 | octets appended after the end marker do not change the decoded sprite |
| Rle.LiteralShift | t4c_utils/sprite_data.py:48-51 | a literal run reads its octets relative to its own start |
| Rle.RunWritesShift | t4c_utils/sprite_data.py:34-51 | a run's writes and marker position do not depend on octets before it |
| Rle.ResumeShift | t4c_utils/sprite_data.py:53-67 | the marker's effect does not depend on octets before it |
| Rle.StepShift | t4c_utils/sprite_data.py:33-67 | one pass does not depend on octets before the cursor |
| Rle.RunShift | t4c_utils/sprite_data.py:33-67 | the loop only reads forward from its cursor |
| Rle.ExampleDecodes | t4c_utils/sprite_data.py:23-69 | a single four-octet literal run on a 4 x 1 sprite decodes to those four octets, whatever follows the end marker |
| Rle.RowRun | t4c_utils/sprite_data.py:37-51 | a whole row coded as one literal run from column 0 holds the row after its five-octet prefix |
| Rle.Placed | t4c_utils/sprite_data.py:51 | placing a row overwrites exactly the cells it covers |
| Rle.RowStep | t4c_utils/sprite_data.py:33-67 | one pass over a row run fills row y and moves to row y+1, or stops on the last row |
| Rle.RunOnRow | t4c_utils/sprite_data.py:33-67 | decoding a row run and then the rest is decoding the rest from the next row with the row filled in |
| Rle.RowAdvance | t4c_utils/sprite_data.py:33-67 | the run of row y fills that row and leaves the later rows to the runs that follow |
| Rle.RowFilled | t4c_utils/sprite_data.py:31 | filling row y keeps agreement with the target on all rows up to y, and on the whole buffer after the last row |
| Rle.RunEncoded | t4c_utils/sprite_data.py:33-67 | the row runs from row y on complete a buffer that is right on the earlier rows |
| Rle.RleDecodeEncode | t4c_utils/sprite_data.py:23-69 | every buffer of padded rows is what the decoder makes of its coding |
| Rle.ShadowInPlace | t4c_utils/sprite_data.py:40-47 | the in-place shadow loop fails exactly when `Shadow` does and otherwise leaves the array holding its result |
| Rle.LiteralInPlace | t4c_utils/sprite_data.py:48-51 | the in-place literal loop fails exactly when `Literal` does and otherwise leaves the array holding its result |
| Rle.WritesInPlace | t4c_utils/sprite_data.py:34-51 | the in-place writes of one run agree with `RunWrites` |
| Rle.DecodeInPlace | t4c_utils/sprite_data.py:23-69 | the in-place decoding loop over one zero-filled array computes exactly `RleDecode` |
| SpriteData.DecryptInvolution | t4c_utils/sprite_data.py:12-20 | deciphering twice with the 28-octet key is the identity |
| Bytes.U16At | t4c_utils/sprite_data.py:131-134 | a `<H` field is below 2^16 |
| Bytes.S16At | t4c_utils/sprite_data.py:135-138 | a `<h` field lies in [-32768, 32768) |
| Bytes.U32At | t4c_utils/sprite_data.py:141-142 | a `<L` field is below 2^32; the same reader takes the rtmap header words (rtmap.py:23-29) |
| SpriteData.ParseHeader | t4c_utils/sprite_data.py:131-142 | every parsed field lies within the width of its slot |
| SpriteData.EncodeHeader | t4c_utils/sprite_data.py:131-142 | a storable header is held in 28 octets |
| SpriteData.EncodedFront | t4c_utils/sprite_data.py:131-136 | type, shadow, width, height, x and y parse back from an encoded header |
| SpriteData.EncodedBack | t4c_utils/sprite_data.py:137-142 | x2, y2, the unused field, the transparent colour and both sizes parse back from an encoded header |
| SpriteData.ParseEncodeHeader | t4c_utils/sprite_data.py:131-142 | parsing an encoded header gives it back |
| SpriteData.EncodeParseHeader | t4c_utils/sprite_data.py:131-142 | every 28-octet header is the encoding of the fields parsed from it |
| SpriteData.Locate | t4c_utils/sprite_data.py:124-144 | locating fails, as a short read, exactly when the archive ends before the 28 header octets at `4 + offset`; then the header is those octets deciphered and parsed, and the payload is the next `size_comp` octets, fewer at the end of the archive |
| SpriteData.LocateArchived | t4c_utils/sprite_data.py:124-144 | a sprite stored at `4 + offset` is located with its own header and payload |
| SpriteData.PayloadRead | t4c_utils/sprite_data.py:144 | reading `size_comp` octets gives the payload, whole or cut short by the end of the archive |
| SpriteData.ImageOf | t4c_utils/sprite_data.py:74-78 | the image exists exactly when every pixel's index is in the buffer and names a colour; it is `width x height`, pixel `x + width*y` showing the colour of index `x + stride*y` |
| SpriteData.LoadSprite1 | t4c_utils/sprite_data.py:71-80 | a type-1 sprite decodes exactly when its raw indices resolve, with pixel `(x, y)` the colour of `data[x + width*y]` |
| SpriteData.RunLengthOctets | t4c_utils/sprite_data.py:84-89 | the index buffer of a type-2 sprite has `Pad4(width) * height` octets |
| SpriteData.LoadSprite2AsWritten | t4c_utils/sprite_data.py:83-99 | the type-2 loader as written succeeds exactly when the stream decodes and every `x + width*y` resolves in the padded buffer, and reads pixel `(x, y)` from there |
| SpriteData.LoadSprite2 | t4c_utils/sprite_data.py:83-99 | the corrected type-2 loader of the finding below, with the padded stride: it succeeds exactly when the stream decodes and every `x + Pad4(width)*y` resolves, and reads pixel `(x, y)` from there, where the decoder wrote it |
| SpriteData.LoadSprite9 | t4c_utils/sprite_data.py:102-119 | a type-9 sprite decodes exactly when its inflation chain succeeds and every index resolves; it is then `width x height`, pixel `(x, y)` the colour of index `x + width*y` of the inflated buffer |
| SpriteData.DoubleZlibIsRaw | t4c_utils/sprite_data.py:102-118 | type 9 is type 1 drawn from an inflated plane: the first inflation (of `data[4:]` when the sizes agree, of `data` otherwise) when it gives `width*height` octets, else the inflation of that output less four octets, whatever its length; either inflation failing gives no image |
| SpriteData.LoadSprite | t4c_utils/sprite_data.py:122-163 | `load_sprite` fails exactly when the header cannot be read or no palette is found; an image it gives comes from a type 1, 2 or 9 header and has that header's dimensions |
| SpriteData.LoadSpriteDispatch | t4c_utils/sprite_data.py:148-163 | once the sprite is located and a palette found, type 1 gives `load_sprite_1`, type 2 gives `load_sprite_2` as written (unpadded stride), type 9 gives `load_sprite_9`, and any other type gives no image |
| SpriteData.InsidePadded | t4c_utils/sprite_data.py:30-31 | every pixel lies inside the padded buffer, read with either stride |
| SpriteData.FullPaletteResolves | t4c_utils/sprite_data.py:91-95 | with a 256-colour palette every padded buffer resolves, with either stride |
| SpriteData.RunLengthFullPalette | t4c_utils/sprite_data.py:83-99 | with a 256-colour palette a type-2 sprite fails only where the zlib layer or the run-length stream fails |
| SpriteData.RunLengthInflates | t4c_utils/sprite_data.py:84-86 | type 2 inflates only when width or height exceeds 180, and then depends on zlib only through the payload's inflation |
| SpriteData.RunLengthRoundTrip | t4c_utils/sprite_data.py:88-95 | padded rows, run-length coded, come back as the image whose pixel `(x, y)` is cell `x + Pad4(width)*y` |
| SpriteData.Type2AsWrittenShears | t4c_utils/sprite_data.py:95 | on a 1 x 2 sprite with indices 5 and 6 the loader as written shows colours 5 and 0, and the padded reading shows 5 and 6 |
| SpriteData.ShearRowsDecode | t4c_utils/sprite_data.py:89 | the coding of the two padded rows decodes back to them |
| SpriteData.ShearAsWritten | t4c_utils/sprite_data.py:95 | read with the unpadded stride, the second row shows the first row's padding |
| SpriteData.ShearPadded | t4c_utils/sprite_data.py:30-31 | read with the padded stride, both rows show the indices the decoder wrote |
| SpriteData.Item | t4c_utils/sprite_data.py:168-175 | a record naming a missing archive raises; a yielded item carries the record's name and path |
| SpriteData.Collect | t4c_utils/sprite_data.py:168-175 | the generator stops exactly when some record raises, with that record's error; it yields at most one item per record, and each yielded item is a record's image |
| SpriteData.CollectAppend | t4c_utils/sprite_data.py:168-175 | collecting `a + b` collects `a` and then, unless `a` stopped the loop, `b` |
| SpriteData.Outcomes | t4c_utils/sprite_data.py:168-169 | the outcomes are one per record, in record order |
| SpriteData.OutcomesAppend | t4c_utils/sprite_data.py:168-169 | the outcomes of `a + b` are those of `a` followed by those of `b` |
| SpriteData.LoadSprites | t4c_utils/sprite_data.py:166-175 | the batch ends early exactly when some record raises, and yields only successful sprites, at most one per record |
| SpriteData.LoadSpritesOne | t4c_utils/sprite_data.py:166-175 | one record yields its image if it has one, nothing if its codec fails, and stops the batch if it raises |
| SpriteData.LoadSpritesAppend | t4c_utils/sprite_data.py:166-175 | sprites are yielded in record order: the batch of `a + b` is that of `a`, followed unless `a` stopped it by that of `b` |
| BestPalette.Before | t4c_utils/sprite_data.py:185-186 | `split(c)[0]` is the longest prefix without `c`, followed by `c` when it is shorter than the text |
| BestPalette.StripDigits | t4c_utils/sprite_data.py:187 | `rstrip` of digits leaves a prefix not ending in a digit, followed only by digits |
| BestPalette.FirstIndex | t4c_utils/sprite_data.py:189-191 | the first position whose palette passes the test, and none exactly when no palette passes |
| BestPalette.CanonicalStem | t4c_utils/sprite_data.py:185-187 | the stem is a prefix of the name with no space or hyphen and no final digit, and in the name it is followed only by digits up to the first space, hyphen or the end |
| BestPalette.FindBestPalette | t4c_utils/sprite_data.py:178-194 | the result is a palette of the list: the first whose name starts with the canonical name, otherwise the first named `Bright1`; it fails exactly when neither exists |
| BestPalette.BeforeFirst | t4c_utils/sprite_data.py:185-186 | `split(c)[0]` stops at the first `c` |
| BestPalette.StripDigitsRun | t4c_utils/sprite_data.py:187 | `rstrip` of digits removes exactly a trailing run of digits |
| BestPalette.WolfBeforeSpace | t4c_utils/sprite_data.py:185 | `"Wolf02-a (shadow)"` before its first space is `"Wolf02-a"` |
| BestPalette.WolfBeforeHyphen | t4c_utils/sprite_data.py:186 | `"Wolf02-a"` before its first hyphen is `"Wolf02"` |
| BestPalette.WolfWithoutDigits | t4c_utils/sprite_data.py:187 | `"Wolf02"` without trailing digits is `"Wolf"` |
| BestPalette.CanonicalWolf | t4c_utils/sprite_data.py:185-187 | `"Wolf02-a (shadow)"` canonicalises to `"Wolf"` |
| BestPalette.StemHeadWins | t4c_utils/sprite_data.py:189-191 | a first palette named with the canonical name is the one chosen |
| BestPalette.WolfListedFirst | t4c_utils/sprite_data.py:185-191 | `"Wolf02-a (shadow)"` gets the palette `Wolf` when it is listed first, `Bright1` following or not |
| BestPalette.EmptyStemTakesFirst | t4c_utils/sprite_data.py:189-191 | an empty canonical name matches the first palette |
| BestPalette.OnlyBright | t4c_utils/sprite_data.py:193-194 | a list holding only `Bright1` resolves to it, whatever the sprite's name |

## Left out

- zlib inflation and the MD5 hex digest are uninterpreted parameters. Nothing is stated about their output beyond what the decoders do with it.
- PIL image construction, `putdata` and saving are not modelled. An image is its width, its height and its row-major list of RGB triples.
- File handles, `seek` and `read` are not modelled as I/O. A file is the sequence of its octets and `read` is `Bytes.Read`.
- Logging is not modelled. A warning is not an output, and a caught exception is the codec's `None`.
- Names are decoded one octet per character, not as UTF-8. This agrees with UTF-8 on ASCII names; a non-ASCII name that UTF-8 would reject is not modelled as an error.
- Python's negative list indices are modelled as Python resolves them, not treated as errors. Only `Rle.Literal` and `Rle.Shadow` state exact cell contents, and only for a non-negative start index.
- Rle.Literal: for a negative start index the contract only says each cell is unchanged or an octet of the stream, because the wrapped cells are not spelled out.
- Rle.Shadow: for a negative start index the contract only says each cell is unchanged or zero, because the wrapped cells are not spelled out.
- Rle.RleDecodeFromStream: states that every cell is zero or an octet of the stream. This is weaker than "a cell no run writes stays 0", because no write set is tracked across runs.
- Rle.RleDecodeEncode: the encoder codes each row as one literal run, so the lemma is stated for padded widths up to 1023. The count field `hi*4 + lo` reaches 1275, but no shorter coding is constructed.
- Rle.ShadowInPlace, Rle.LiteralInPlace, Rle.WritesInPlace: their contracts speak of the array's old contents.
- The sprite archives of `load_sprites` are a sequence of octet strings indexed by the record's archive number. A number past the sequence is the `NoSuchArchive` error, which a missing dictionary key or list index would raise.
- The world number of `load_rtmap` is a natural number. A negative Python index into the header tables is not modelled.
- Rtmap.LoadRtmap: only fixes the current dimensions; the rest of its behaviour is `Rtmap.LoadWorld`'s on the layout of 8 worlds of 6144 x 3072, which no proof unfolds.
- t4c_utils/cli.py is not part of this model: command-line parsing, directory creation, JSON output and file-existence fallbacks.
- setup.py is not part of this model: packaging metadata.

## Findings

| source | as written | input that shows it | evidently intended | confidence | as-written member | corrected member |
|---|---|---|---|---|---|---|
| t4c_utils/sprite_data.py:95 | type-2 pixels are read at `x + width*y` from the run-length buffer, whose rows are `(width + 3) & ~3` octets apart (t4c_utils/sprite_data.py:30-31) | a 1 x 2 sprite whose run-length stream codes the padded rows `[5, 0, 0, 0]` and `[6, 0, 0, 0]`: the second pixel shows the first row's padding (index 0), not index 6 | rows read at `x + Pad4(width)*y`, where the decoder wrote them; `load_sprite` in the model keeps the reading as written | medium, not executed | SpriteData.Type2AsWrittenShears | SpriteData.RunLengthRoundTrip |

