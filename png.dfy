/**
 * image-generation/png.py: `save_png` writes the PNG signature and three
 * chunks, IHDR, IDAT and IEND (sections 5.2, 5.3 and 11.2 of the PNG
 * specification, ISO/IEC 15948).  The IDAT payload is the zlib compression
 * of a raw buffer of scanlines, each a filter byte 0 followed by a row's
 * pixels.
 *
 * `zlib.crc32` and the zlib compressor are foreign code: they are the
 * parameters `crc` and `compress` of the model.  The functions below say
 * what is written; the methods write it through a `Sink` as the source
 * does, into a `BytesIO` block first where the source does.
 */
module Png {
  import opened Wrappers
  import opened ByteStream

  /** An element of `data`: an `int` grey level, or a tuple (or list) of channel values. */
  datatype Datum = Int(n: int) | Tuple(items: seq<int>)

  /** What `zlib.crc32` returns: an unsigned 32-bit value. */
  type Word = n: int | 0 <= n < 0x1_0000_0000

  /** `b'\x89PNG\r\n\x1A\n'` */
  const Signature: seq<int> := [0x89, 0x50, 0x4E, 0x47, 0x0D, 0x0A, 0x1A, 0x0A]

  /** `b'IHDR'`, `b'IDAT'` and `b'IEND'` */
  const IhdrTag: seq<int> := [0x49, 0x48, 0x44, 0x52]
  const IdatTag: seq<int> := [0x49, 0x44, 0x41, 0x54]
  const IendTag: seq<int> := [0x49, 0x45, 0x4E, 0x44]

  // ---------------------------------------------------------------------------
  // Chunks

  /** A chunk: the payload's length, the tag, the payload, and the CRC of tag and payload, all lengths big-endian. */
  function Chunk(tag: seq<int>, payload: seq<int>, crc: seq<int> -> Word): (r: Result<seq<int>>)
    ensures r.Ok? <==> |payload| < 0x1_0000_0000
    ensures r.Err? ==> r.error == StructError
  {
    Limits();
    var length :- Pack(|payload|, 4, true);
    Ok(length + (tag + payload) + Big(crc(tag + payload), 4))
  }

  /** `struct.pack('>I', zlib.crc32(...))` never fails: the CRC is a 32-bit value. */
  lemma PackWord(w: Word)
    ensures Pack(w, 4, true) == Ok(Big(w, 4))
  {
    Limits();
  }

  // ---------------------------------------------------------------------------
  // IHDR

  /** The colour type code `_write_IHDR` builds: bit 0 for `'p'`, bit 1 for `'c'`, bit 2 for `'a'` in `color_type`. */
  function ColorCode(colorType: string): (ct: int)
    ensures 0 <= ct < 8
    ensures ct % 2 == 1 <==> 'p' in colorType
    ensures ct / 2 % 2 == 1 <==> 'c' in colorType
    ensures ct / 4 == 1 <==> 'a' in colorType
  {
    (if 'p' in colorType then 1 else 0) + (if 'c' in colorType then 2 else 0) + (if 'a' in colorType then 4 else 0)
  }

  /** The colour types the writer accepts: greyscale, truecolour, indexed, greyscale with alpha, truecolour with alpha. */
  predicate Accepted(ct: int)
  {
    ct == 0 || ct == 2 || ct == 3 || ct == 4 || ct == 6
  }

  /** The 13 IHDR payload bytes: width, height, bit depth, colour type, then compression, filter and interlace method 0. */
  function IhdrPayload(width: int, height: int, bitDepth: int, ct: int): (r: Result<seq<int>>)
    ensures r.Ok? <==> 0 <= width < 0x1_0000_0000 && 0 <= height < 0x1_0000_0000 && IsByte(bitDepth) && IsByte(ct)
    ensures r.Err? ==> r.error == StructError
    ensures r.Ok? ==> |r.value| == 13
  {
    Limits();
    var w :- Pack(width, 4, true);
    var h :- Pack(height, 4, true);
    var d :- Pack(bitDepth, 1, true);
    var c :- Pack(ct, 1, true);
    Ok(w + h + d + c + [0] + [0] + [0])
  }

  /** What `_write_IHDR(handle, width, height, bit_depth, color_type)` writes, or the exception it raises. */
  function Ihdr(width: int, height: int, bitDepth: int, colorType: string, crc: seq<int> -> Word): Result<seq<int>>
  {
    var ct := ColorCode(colorType);
    if !Accepted(ct) then Err(ValueError)
    else
      var payload :- IhdrPayload(width, height, bitDepth, ct);
      Chunk(IhdrTag, payload, crc)
  }

  // ---------------------------------------------------------------------------
  // The raw scanline buffer

  /** `struct.pack('>B', datum)`: a grey level as one byte. */
  function PackGray(d: Datum): (r: Result<seq<int>>)
    ensures r.Ok? <==> d.Int? && IsByte(d.n)
    ensures r.Ok? ==> r.value == [d.n]
    ensures r.Err? ==> r.error == StructError
  {
    match d
    case Int(n) => PackByte(n); Pack(n, 1, true)
    case Tuple(_) => Err(StructError)
  }

  /** `struct.pack('>B', n)` is the byte `n` itself. */
  lemma PackByte(n: int)
    ensures IsByte(n) ==> Pack(n, 1, true) == Ok([n])
  {
    Limits();
  }

  /** `datum[k]` packed as one byte: `IndexError` past the end. */
  function PackItem(items: seq<int>, k: nat): (r: Result<seq<int>>)
    ensures r.Ok? <==> k < |items| && IsByte(items[k])
    ensures r.Ok? ==> r.value == [items[k]]
    ensures r.Err? ==> (r.error == IndexError <==> k >= |items|)
    ensures r.Err? ==> r.error == StructError || r.error == IndexError
  {
    if k < |items| then PackByte(items[k]); Pack(items[k], 1, true) else Err(IndexError)
  }

  /** The first three channels of a datum, each packed as one byte; `TypeError` when the datum is an `int`. */
  function PackRgb(d: Datum): (r: Result<seq<int>>)
    ensures r.Ok? <==> d.Tuple? && |d.items| >= 3 && IsByte(d.items[0]) && IsByte(d.items[1]) && IsByte(d.items[2])
    ensures r.Ok? ==> r.value == d.items[..3]
    ensures r.Err? ==> (r.error == TypeError <==> d.Int?)
  {
    match d
    case Int(_) => Err(TypeError)
    case Tuple(items) =>
      var red :- PackItem(items, 0);
      var green :- PackItem(items, 1);
      var blue :- PackItem(items, 2);
      Ok(red + green + blue)
  }

  /** The bytes one pixel takes: one grey level, or three channels. */
  function PixelSize(gray: bool): nat
  {
    if gray then 1 else 3
  }

  function PackDatum(d: Datum, gray: bool): (r: Result<seq<int>>)
    ensures r.Ok? ==> |r.value| == PixelSize(gray) && AllBytes(r.value)
  {
    if gray then PackGray(d) else PackRgb(d)
  }

  /** `bs` written `count` times; nothing when `count` is not positive, as for an empty `range`. */
  function Repeat(bs: seq<int>, count: int): (r: seq<int>)
    ensures |r| == (if count <= 0 then 0 else count * |bs|)
    decreases count
  {
    if count <= 0 then [] else MulSucc(count - 1, |bs|); Repeat(bs, count - 1) + bs
  }

  /** The packed values of a row, left to right. */
  function Values(row: seq<Datum>, gray: bool): Result<seq<int>>
  {
    if row == [] then Ok([])
    else
      var before :- Values(row[..|row| - 1], gray);
      var last :- PackDatum(row[|row| - 1], gray);
      Ok(before + last)
  }

  /** One given row: filter byte 0 (none), its values, then the default pixel up to `width`. */
  function Line(row: seq<Datum>, width: int, dp: seq<int>, gray: bool): Result<seq<int>>
  {
    var values :- Values(row, gray);
    Ok([0] + values + Repeat(dp, width - |row|))
  }

  /** The given rows, first to last. */
  function Rows(data: seq<seq<Datum>>, width: int, dp: seq<int>, gray: bool): Result<seq<int>>
  {
    if data == [] then Ok([])
    else
      var before :- Rows(data[..|data| - 1], width, dp, gray);
      var last :- Line(data[|data| - 1], width, dp, gray);
      Ok(before + last)
  }

  /** A row missing from `data`: `width` default pixels, after a filter byte only when `filter` holds. */
  function MissingLine(width: int, dp: seq<int>, filter: bool): seq<int>
  {
    (if filter then [0] else []) + Repeat(dp, width)
  }

  /**
   * The raw buffer `_write_IDAT` compresses: greyscale for the empty colour
   * type, truecolour when it has a `'c'`.  Missing greyscale rows get no
   * filter byte, missing truecolour rows do.
   */
  function Raw(data: seq<seq<Datum>>, width: int, height: int, colorType: string, dp: seq<int>): Result<seq<int>>
  {
    if colorType == "" then
      var rows :- Rows(data, width, dp, true);
      Ok(rows + Repeat(MissingLine(width, dp, false), height - |data|))
    else if 'c' in colorType then ScanlineBuffer(data, width, height, false, dp)
    else Err(ValueError)
  }

  /** The given rows, then `height - len(data)` missing rows, each with its filter byte. */
  function ScanlineBuffer(data: seq<seq<Datum>>, width: int, height: int, gray: bool, dp: seq<int>): Result<seq<int>>
  {
    var rows :- Rows(data, width, dp, gray);
    Ok(rows + Repeat(MissingLine(width, dp, true), height - |data|))
  }

  /** The default pixel: black in the colour type's format, or the given one packed; `ValueError` for another colour type. */
  function DefaultPixel(colorType: string, default: Option<Datum>): (r: Result<seq<int>>)
    ensures default.None? ==> r == Ok(if 'c' in colorType then [0, 0, 0] else [0])
    ensures r.Ok? ==> |r.value| == PixelSize('c' !in colorType) && AllBytes(r.value)
    ensures default.Some? && colorType != "" && colorType != "c" ==> r == Err(ValueError)
  {
    match default
    case None => Ok(if 'c' in colorType then [0, 0, 0] else [0])
    case Some(d) =>
      if colorType == "" then PackGray(d)
      else if colorType == "c" then PackRgb(d)
      else Err(ValueError)
  }

  /** What `_write_IDAT(handle, data, width, height, color_type, default_pixel)` writes, or the exception it raises. */
  function Idat(data: seq<seq<Datum>>, width: int, height: int, colorType: string, default: Option<Datum>,
                crc: seq<int> -> Word, compress: seq<int> -> seq<int>): Result<seq<int>>
  {
    var dp :- DefaultPixel(colorType, default);
    var raw :- Raw(data, width, height, colorType, dp);
    Chunk(IdatTag, compress(raw), crc)
  }

  /** What `_write_IEND(handle)` writes: the chunk with no payload, length 0, the tag and the CRC of the tag alone. */
  function Iend(crc: seq<int> -> Word): (r: seq<int>)
    ensures r == [0, 0, 0, 0] + IendTag + Big(crc(IendTag), 4)
  {
    assert IendTag + [] == IendTag;
    assert Big(0, 4) == [0, 0, 0, 0];
    Chunk(IendTag, [], crc).value
  }

  // ---------------------------------------------------------------------------
  // save_png

  /** `max(len(row) for row in data)` */
  function LongestRow(data: seq<seq<Datum>>): (m: nat)
    requires data != []
    ensures forall i :: 0 <= i < |data| ==> |data[i]| <= m
    ensures exists i :: 0 <= i < |data| && |data[i]| == m
  {
    if |data| == 1 then |data[0]|
    else
      var init := data[..|data| - 1];
      var m := LongestRow(init);
      assert forall i :: 0 <= i < |init| ==> init[i] == data[i];
      if |data[|data| - 1]| > m then |data[|data| - 1]| else m
  }

  /** What a call wrote to the handle, and how it ended. */
  datatype Run = Run(written: seq<int>, outcome: Outcome)

  /** The height `save_png` uses: `len(data)` when none is given. */
  function Height(data: seq<seq<Datum>>, height: Option<int>): int
  {
    if height.None? then |data| else height.value
  }

  /** The colour type `save_png` uses: `''` when the first datum is an `int`, else `'c'`, when none is given. */
  function Inferred(data: seq<seq<Datum>>, colorType: Option<string>): string
    requires colorType.None? ==> data != [] && data[0] != []
  {
    if colorType.Some? then colorType.value else if data[0][0].Int? then "" else "c"
  }

  /**
   * `save_png(handle, data, width, height, color_type, bit_depth, default_pixel)`:
   * what it writes and how it ends.  An exception from a chunk writer
   * leaves what the earlier writers wrote.
   */
  function Save(data: seq<seq<Datum>>, width: Option<int>, height: Option<int>, colorType: Option<string>,
                bitDepth: int, default: Option<Datum>, crc: seq<int> -> Word, compress: seq<int> -> seq<int>): Run
  {
    var h := Height(data, height);
    if h <= 0 then Run([], Fail(ValueError))
    else if width.None? && data == [] then Run([], Fail(ValueError))
    else
      var w := if width.None? then LongestRow(data) else width.value;
      if w <= 0 then Run([], Fail(ValueError))
      else if colorType.None? && (data == [] || data[0] == []) then Run([], Fail(IndexError))
      else
        Emit(data, w, h, Inferred(data, colorType), bitDepth, default, crc, compress)
  }

  /** The writes of `save_png` once the dimensions and the colour type are settled: signature, IHDR, IDAT, IEND. */
  function Emit(data: seq<seq<Datum>>, width: int, height: int, colorType: string, bitDepth: int, default: Option<Datum>,
                crc: seq<int> -> Word, compress: seq<int> -> seq<int>): Run
  {
    var ihdr := Ihdr(width, height, bitDepth, colorType, crc);
    if ihdr.Err? then Run(Signature, Fail(ihdr.error))
    else
      var idat := Idat(data, width, height, colorType, default, crc, compress);
      if idat.Err? then Run(Signature + ihdr.value, Fail(idat.error))
      else Run(Signature + ihdr.value + idat.value + Iend(crc), Pass)
  }

  // ---------------------------------------------------------------------------
  // The writer

  /** `_write_IHDR(handle, width, height, bit_depth, color_type)`: the colour type code, then the chunk built in a `BytesIO`. */
  method WriteIhdr(handle: Sink, width: int, height: int, bitDepth: int, colorType: string, crc: seq<int> -> Word)
    returns (r: Outcome)
    modifies handle
    ensures r == if Ihdr(width, height, bitDepth, colorType, crc).Ok? then Pass else Fail(Ihdr(width, height, bitDepth, colorType, crc).error)
    ensures Ihdr(width, height, bitDepth, colorType, crc).Ok? ==> handle.written == old(handle.written) + Ihdr(width, height, bitDepth, colorType, crc).value
    ensures Ihdr(width, height, bitDepth, colorType, crc).Err? ==> handle.written == old(handle.written)
  {
    var ct: bv8 := 0;
    if 'p' in colorType {
      ct := ct | 1;
    }
    if 'c' in colorType {
      ct := ct | 2;
    }
    if 'a' in colorType {
      ct := ct | 4;
    }
    ColorBits(colorType, ct);
    if ct as int !in [0, 2, 3, 4, 6] {
      return Fail(ValueError);
    }
    var block := new Sink();
    r := WriteIhdrPayload(block, width, height, bitDepth, ct as int);
    if r.Fail? {
      return;
    }
    assert block.written == IhdrPayload(width, height, bitDepth, ColorCode(colorType)).value;
    assert Ihdr(width, height, bitDepth, colorType, crc) == Chunk(IhdrTag, block.written, crc);
    WriteChunk(handle, IhdrTag, block.written, crc);
  }

  /** The seven `block.write` calls of `_write_IHDR`. */
  method WriteIhdrPayload(block: Sink, width: int, height: int, bitDepth: int, ct: int) returns (r: Outcome)
    requires IsByte(ct)
    modifies block
    ensures r == if IhdrPayload(width, height, bitDepth, ct).Ok? then Pass else Fail(StructError)
    ensures r.Pass? ==> block.written == old(block.written) + IhdrPayload(width, height, bitDepth, ct).value
  {
    ghost var start := block.written;
    Limits();
    var w := Pack(width, 4, true);
    if w.Err? {
      return Fail(w.error);
    }
    block.Write(w.value);
    var h := Pack(height, 4, true);
    if h.Err? {
      return Fail(h.error);
    }
    block.Write(h.value);
    AppendAssoc(start, w.value, h.value);
    var d := Pack(bitDepth, 1, true);
    if d.Err? {
      return Fail(d.error);
    }
    block.Write(d.value);
    AppendAssoc(start, w.value + h.value, d.value);
    var c := Pack(ct, 1, true);
    block.Write(c.value);
    AppendAssoc(start, w.value + h.value + d.value, c.value);
    ghost var expected := w.value + h.value + d.value + c.value;
    block.Write([0]);
    AppendAssoc(start, expected, [0]);
    block.Write([0]);
    AppendAssoc(start, expected + [0], [0]);
    block.Write([0]);
    AppendAssoc(start, expected + [0] + [0], [0]);
    return Pass;
  }

  /** The three `handle.write` calls that frame a chunk: length, tag and payload, CRC. */
  method WriteChunk(handle: Sink, tag: seq<int>, payload: seq<int>, crc: seq<int> -> Word)
    requires Chunk(tag, payload, crc).Ok?
    modifies handle
    ensures handle.written == old(handle.written) + Chunk(tag, payload, crc).value
  {
    ghost var start := handle.written;
    Limits();
    var length := Pack(|payload|, 4, true);
    handle.Write(length.value);
    var full := tag + payload;
    handle.Write(full);
    AppendAssoc(start, length.value, full);
    PackWord(crc(full));
    var check := Pack(crc(full), 4, true);
    handle.Write(check.value);
    AppendAssoc(start, length.value + full, check.value);
  }

  /** The flags set in `ct` one by one give `ColorCode`. */
  lemma ColorBits(colorType: string, ct: bv8)
    requires ct == (if 'p' in colorType then 1 else 0) | (if 'c' in colorType then 2 else 0) | (if 'a' in colorType then 4 else 0)
    ensures ct as int == ColorCode(colorType)
  {
  }

  /** `for j in range(start, stop): block.write(default_pixel)` */
  method WriteDefaults(block: Sink, dp: seq<int>, start: int, stop: int)
    modifies block
    ensures block.written == old(block.written) + Repeat(dp, stop - start)
  {
    if start < stop {
      for j := start to stop
        invariant block.written == old(block.written) + Repeat(dp, j - start)
      {
        block.Write(dp);
      }
    }
  }

  /** One datum of a row: `struct.pack('>B', data[i][j])`, or the three channel writes of a truecolour pixel. */
  method WriteDatum(block: Sink, d: Datum, gray: bool) returns (r: Outcome)
    modifies block
    ensures r == if PackDatum(d, gray).Ok? then Pass else Fail(PackDatum(d, gray).error)
    ensures r.Pass? ==> block.written == old(block.written) + PackDatum(d, gray).value
  {
    if gray {
      var v := PackGray(d);
      if v.Err? {
        return Fail(v.error);
      }
      block.Write(v.value);
      return Pass;
    }
    if d.Int? {
      return Fail(TypeError);
    }
    ghost var start := block.written;
    var red := PackItem(d.items, 0);
    if red.Err? {
      return Fail(red.error);
    }
    block.Write(red.value);
    var green := PackItem(d.items, 1);
    if green.Err? {
      return Fail(green.error);
    }
    block.Write(green.value);
    AppendAssoc(start, red.value, green.value);
    var blue := PackItem(d.items, 2);
    if blue.Err? {
      return Fail(blue.error);
    }
    block.Write(blue.value);
    AppendAssoc(start, red.value + green.value, blue.value);
    return Pass;
  }

  /** A datum that fails makes its row fail with the same exception, when the datums before it pack. */
  lemma {:induction false} ValuesFailSpread(row: seq<Datum>, j: nat, gray: bool)
    requires j < |row| && Values(row[..j], gray).Ok? && PackDatum(row[j], gray).Err?
    ensures Values(row, gray) == Err(PackDatum(row[j], gray).error)
    decreases |row|
  {
    var init := row[..|row| - 1];
    if j < |row| - 1 {
      assert init[..j] == row[..j] && init[j] == row[j];
      ValuesFailSpread(init, j, gray);
    } else {
      assert init == row[..j];
    }
  }

  /** `for j in range(len(data[i]))`: the values of one row. */
  method WriteValues(block: Sink, row: seq<Datum>, gray: bool) returns (r: Outcome)
    modifies block
    ensures r == if Values(row, gray).Ok? then Pass else Fail(Values(row, gray).error)
    ensures r.Pass? ==> block.written == old(block.written) + Values(row, gray).value
  {
    ghost var start := block.written;
    for j := 0 to |row|
      invariant Values(row[..j], gray).Ok?
      invariant block.written == start + Values(row[..j], gray).value
    {
      assert row[..j + 1][..j] == row[..j];
      ghost var before := Values(row[..j], gray).value;
      r := WriteDatum(block, row[j], gray);
      if r.Fail? {
        ValuesFailSpread(row, j, gray);
        return;
      }
      AppendAssoc(start, before, PackDatum(row[j], gray).value);
    }
    assert row[..|row|] == row;
    r := Pass;
  }

  /** One given row: the filter byte, the row's values, then default pixels up to `width`. */
  method WriteLine(block: Sink, row: seq<Datum>, width: int, dp: seq<int>, gray: bool) returns (r: Outcome)
    modifies block
    ensures r == if Line(row, width, dp, gray).Ok? then Pass else Fail(Line(row, width, dp, gray).error)
    ensures r.Pass? ==> block.written == old(block.written) + Line(row, width, dp, gray).value
  {
    ghost var start := block.written;
    block.Write([0]);
    r := WriteValues(block, row, gray);
    if r.Fail? {
      return;
    }
    AppendAssoc(start, [0], Values(row, gray).value);
    ghost var line := [0] + Values(row, gray).value;
    WriteDefaults(block, dp, |row|, width);
    AppendAssoc(start, line, Repeat(dp, width - |row|));
  }

  /** A row that fails makes the rows fail with the same exception, when the rows before it pack. */
  lemma {:induction false} RowsFailSpread(data: seq<seq<Datum>>, i: nat, width: int, dp: seq<int>, gray: bool)
    requires i < |data| && Rows(data[..i], width, dp, gray).Ok? && Line(data[i], width, dp, gray).Err?
    ensures Rows(data, width, dp, gray) == Err(Line(data[i], width, dp, gray).error)
    decreases |data|
  {
    var init := data[..|data| - 1];
    if i < |data| - 1 {
      assert init[..i] == data[..i] && init[i] == data[i];
      RowsFailSpread(init, i, width, dp, gray);
    } else {
      assert init == data[..i];
    }
  }

  /** `for i in range(len(data))`: every given row. */
  method WriteRows(block: Sink, data: seq<seq<Datum>>, width: int, dp: seq<int>, gray: bool) returns (r: Outcome)
    modifies block
    ensures r == if Rows(data, width, dp, gray).Ok? then Pass else Fail(Rows(data, width, dp, gray).error)
    ensures r.Pass? ==> block.written == old(block.written) + Rows(data, width, dp, gray).value
  {
    ghost var start := block.written;
    for i := 0 to |data|
      invariant Rows(data[..i], width, dp, gray).Ok?
      invariant block.written == start + Rows(data[..i], width, dp, gray).value
    {
      assert data[..i + 1][..i] == data[..i];
      ghost var before := Rows(data[..i], width, dp, gray).value;
      r := WriteLine(block, data[i], width, dp, gray);
      if r.Fail? {
        RowsFailSpread(data, i, width, dp, gray);
        return;
      }
      AppendAssoc(start, before, Line(data[i], width, dp, gray).value);
    }
    assert data[..|data|] == data;
    r := Pass;
  }

  /** `for i in range(len(data), height)`: the missing rows, each `width` default pixels, after a filter byte when `filter` holds. */
  method WriteMissing(block: Sink, width: int, dp: seq<int>, filter: bool, start: int, stop: int)
    modifies block
    ensures block.written == old(block.written) + Repeat(MissingLine(width, dp, filter), stop - start)
  {
    if start < stop {
      for i := start to stop
        invariant block.written == old(block.written) + Repeat(MissingLine(width, dp, filter), i - start)
      {
        ghost var before := block.written;
        if filter {
          block.Write([0]);
        }
        WriteDefaults(block, dp, 0, width);
        AppendAssoc(before, if filter then [0] else [], Repeat(dp, width));
      }
    }
  }

  /** The `BytesIO` block of `_write_IDAT`: the rows in the colour type's format, then the missing rows. */
  method WriteRaw(block: Sink, data: seq<seq<Datum>>, width: int, height: int, colorType: string, dp: seq<int>)
    returns (r: Outcome)
    modifies block
    ensures r == if Raw(data, width, height, colorType, dp).Ok? then Pass else Fail(Raw(data, width, height, colorType, dp).error)
    ensures r.Pass? ==> block.written == old(block.written) + Raw(data, width, height, colorType, dp).value
  {
    var gray: bool;
    if colorType == "" {
      gray := true;
    } else if 'c' in colorType {
      gray := false;
    } else {
      return Fail(ValueError);
    }
    ghost var start := block.written;
    r := WriteRows(block, data, width, dp, gray);
    if r.Fail? {
      return;
    }
    ghost var rows := Rows(data, width, dp, gray).value;
    WriteMissing(block, width, dp, !gray, |data|, height);
    AppendAssoc(start, rows, Repeat(MissingLine(width, dp, !gray), height - |data|));
  }

  /** `_write_IDAT(handle, data, width, height, color_type, default_pixel)`: the default pixel, the raw block, then the chunk. */
  method WriteIdat(handle: Sink, data: seq<seq<Datum>>, width: int, height: int, colorType: string,
                   default: Option<Datum>, crc: seq<int> -> Word, compress: seq<int> -> seq<int>)
    returns (r: Outcome)
    modifies handle
    ensures var idat := Idat(data, width, height, colorType, default, crc, compress);
      r == if idat.Ok? then Pass else Fail(idat.error)
    ensures var idat := Idat(data, width, height, colorType, default, crc, compress);
      handle.written == old(handle.written) + if idat.Ok? then idat.value else []
  {
    var dp: seq<int>;
    if default.None? {
      dp := if 'c' in colorType then [0, 0, 0] else [0];
    } else if colorType == "" {
      var p := PackGray(default.value);
      if p.Err? {
        return Fail(p.error);
      }
      dp := p.value;
    } else if colorType == "c" {
      var p := PackRgb(default.value);
      if p.Err? {
        return Fail(p.error);
      }
      dp := p.value;
    } else {
      return Fail(ValueError);
    }
    assert DefaultPixel(colorType, default) == Ok(dp);
    var block := new Sink();
    r := WriteRaw(block, data, width, height, colorType, dp);
    if r.Fail? {
      return;
    }
    assert block.written == Raw(data, width, height, colorType, dp).value;
    IdatChunk(data, width, height, colorType, default, crc, compress, dp, block.written);
    var compressed := compress(block.written);
    var length := Pack(|compressed|, 4, true);
    if length.Err? {
      return Fail(length.error);
    }
    WriteChunk(handle, IdatTag, compressed, crc);
  }

  lemma IdatChunk(data: seq<seq<Datum>>, width: int, height: int, colorType: string, default: Option<Datum>,
                  crc: seq<int> -> Word, compress: seq<int> -> seq<int>, dp: seq<int>, raw: seq<int>)
    requires DefaultPixel(colorType, default) == Ok(dp) && Raw(data, width, height, colorType, dp) == Ok(raw)
    ensures Idat(data, width, height, colorType, default, crc, compress) == Chunk(IdatTag, compress(raw), crc)
  {
  }

  /** `_write_IEND(handle)` */
  method WriteIend(handle: Sink, crc: seq<int> -> Word)
    modifies handle
    ensures handle.written == old(handle.written) + Iend(crc)
  {
    ghost var start := handle.written;
    Limits();
    assert Big(0, 4) == [0, 0, 0, 0];
    handle.Write(Pack(0, 4, true).value);
    handle.Write(IendTag);
    PackWord(crc(IendTag));
    handle.Write(Pack(crc(IendTag), 4, true).value);
    AppendAssoc(start, [0, 0, 0, 0], IendTag);
    AppendAssoc(start, [0, 0, 0, 0] + IendTag, Big(crc(IendTag), 4));
  }

  /** `save_png(handle, data, width, height, color_type, bit_depth, default_pixel)` */
  method SavePng(handle: Sink, data: seq<seq<Datum>>, width: Option<int>, height: Option<int>, colorType: Option<string>,
                 bitDepth: int, default: Option<Datum>, crc: seq<int> -> Word, compress: seq<int> -> seq<int>)
    returns (r: Outcome)
    modifies handle
    ensures var run := Save(data, width, height, colorType, bitDepth, default, crc, compress);
      r == run.outcome && handle.written == old(handle.written) + run.written
  {
    var h := if height.None? then |data| else height.value;
    if h <= 0 {
      return Fail(ValueError);
    }
    var w: int;
    if width.None? {
      if data == [] {
        return Fail(ValueError);
      }
      w := LongestRow(data);
    } else {
      w := width.value;
    }
    if w <= 0 {
      return Fail(ValueError);
    }
    var ct: string;
    if colorType.None? {
      if data == [] || data[0] == [] {
        return Fail(IndexError);
      }
      ct := if data[0][0].Int? then "" else "c";
    } else {
      ct := colorType.value;
    }
    r := WriteFile(handle, data, w, h, ct, bitDepth, default, crc, compress);
  }

  /** The signature and the three chunk writers, in order; an exception stops the sequence. */
  method WriteFile(handle: Sink, data: seq<seq<Datum>>, width: int, height: int, colorType: string, bitDepth: int,
                   default: Option<Datum>, crc: seq<int> -> Word, compress: seq<int> -> seq<int>)
    returns (r: Outcome)
    modifies handle
    ensures var run := Emit(data, width, height, colorType, bitDepth, default, crc, compress);
      r == run.outcome && handle.written == old(handle.written) + run.written
  {
    ghost var start := handle.written;
    handle.Write(Signature);
    r := WriteIhdr(handle, width, height, bitDepth, colorType, crc);
    if r.Fail? {
      return;
    }
    ghost var ihdr := Ihdr(width, height, bitDepth, colorType, crc).value;
    AppendAssoc(start, Signature, ihdr);
    r := WriteIdat(handle, data, width, height, colorType, default, crc, compress);
    if r.Fail? {
      return;
    }
    ghost var idat := Idat(data, width, height, colorType, default, crc, compress).value;
    AppendAssoc(start, Signature + ihdr, idat);
    WriteIend(handle, crc);
    AppendAssoc(start, Signature + ihdr + idat, Iend(crc));
    r := Pass;
  }

  // ---------------------------------------------------------------------------
  // Properties: the colour types

  /** The codes `_write_IHDR` accepts are those where a palette comes with colour and without alpha. */
  lemma AcceptedColorTypes(colorType: string)
    ensures Accepted(ColorCode(colorType)) <==> ('p' in colorType ==> 'c' in colorType && 'a' !in colorType)
  {
    var ct := ColorCode(colorType);
    assert ct == ct / 4 * 4 + ct / 2 % 2 * 2 + ct % 2;
  }

  /** The IHDR payload reads back as width, height, bit depth, colour type code, then three zero bytes. */
  lemma IhdrFields(width: int, height: int, bitDepth: int, ct: int)
    requires IhdrPayload(width, height, bitDepth, ct).Ok?
    ensures var p := IhdrPayload(width, height, bitDepth, ct).value;
      ReadBig(p[..4]) == width && ReadBig(p[4..8]) == height && p[8] == bitDepth && p[9] == ct && p[10..] == [0, 0, 0]
  {
    Limits();
    PackByte(bitDepth);
    PackByte(ct);
    var w := Pack(width, 4, true).value;
    var h := Pack(height, 4, true).value;
    var p := IhdrPayload(width, height, bitDepth, ct).value;
    assert p == w + h + [bitDepth] + [ct] + [0] + [0] + [0];
    assert p[..4] == w;
    assert p[4..8] == h;
  }

  // ---------------------------------------------------------------------------
  // Properties: reading the file back

  /** A chunk as a reader sees it. */
  datatype ChunkView = ChunkView(tag: seq<int>, payload: seq<int>)

  /** Reads one chunk off the front of `bs`, checking its length and its CRC: the chunk, and what follows it. */
  function ReadChunk(bs: seq<int>, crc: seq<int> -> Word): (r: Option<(ChunkView, seq<int>)>)
    ensures r.Some? ==> |r.value.0.tag| == 4 && |r.value.1| < |bs|
  {
    if |bs| < 12 then None
    else
      var n := ReadBig(bs[..4]);
      if n < 0 || |bs| < 12 + n then None
      else
        var tag, payload := bs[4..8], bs[8..8 + n];
        if ReadBig(bs[8 + n..12 + n]) != crc(tag + payload) then None
        else Some((ChunkView(tag, payload), bs[12 + n..]))
  }

  /** Reads chunks until `bs` runs out; `None` when one of them does not read. */
  function ReadChunks(bs: seq<int>, crc: seq<int> -> Word): Option<seq<ChunkView>>
    decreases |bs|
  {
    if bs == [] then Some([])
    else
      match ReadChunk(bs, crc)
      case None => None
      case Some((c, rest)) =>
        match ReadChunks(rest, crc)
        case None => None
        case Some(cs) => Some([c] + cs)
  }

  /** A PNG file as a reader sees it: the signature, then chunks. */
  function ReadPng(bs: seq<int>, crc: seq<int> -> Word): Option<seq<ChunkView>>
  {
    if |bs| < 8 || bs[..8] != Signature then None else ReadChunks(bs[8..], crc)
  }

  /** A chunk reads back as its tag and payload, whatever follows it. */
  lemma ChunkReadBack(tag: seq<int>, payload: seq<int>, rest: seq<int>, crc: seq<int> -> Word)
    requires |tag| == 4 && Chunk(tag, payload, crc).Ok?
    ensures ReadChunk(Chunk(tag, payload, crc).value + rest, crc) == Some((ChunkView(tag, payload), rest))
  {
    Limits();
    var length := Pack(|payload|, 4, true).value;
    var sum := Big(crc(tag + payload), 4);
    BigRoundTrip(crc(tag + payload), 4);
    assert Chunk(tag, payload, crc).value == length + (tag + payload) + sum;
    FramedReadBack(length, tag, payload, sum, rest, crc);
  }

  /** The framing of a chunk, with the length and the CRC fields given as byte strings. */
  lemma FramedReadBack(length: seq<int>, tag: seq<int>, payload: seq<int>, sum: seq<int>, rest: seq<int>,
                       crc: seq<int> -> Word)
    requires |length| == 4 && |tag| == 4 && |sum| == 4
    requires ReadBig(length) == |payload| && ReadBig(sum) == crc(tag + payload)
    ensures ReadChunk(length + (tag + payload) + sum + rest, crc) == Some((ChunkView(tag, payload), rest))
  {
    var n := |payload|;
    var bs := length + (tag + payload) + sum + rest;
    assert bs[..4] == length;
    assert bs[4..8] == tag;
    assert bs[8..8 + n] == payload;
    assert bs[8 + n..12 + n] == sum;
    assert bs[12 + n..] == rest;
  }

  /** A chunk followed by chunks that read back reads back as one more chunk. */
  lemma ChunksReadBack(tag: seq<int>, payload: seq<int>, rest: seq<int>, crc: seq<int> -> Word)
    requires |tag| == 4 && Chunk(tag, payload, crc).Ok? && ReadChunks(rest, crc).Some?
    ensures ReadChunks(Chunk(tag, payload, crc).value + rest, crc) == Some([ChunkView(tag, payload)] + ReadChunks(rest, crc).value)
  {
    ChunkReadBack(tag, payload, rest, crc);
  }

  /** What `save_png` writes when it returns reads back as the signature and the IHDR, IDAT and IEND chunks, in order. */
  lemma EmitReadBack(data: seq<seq<Datum>>, width: int, height: int, colorType: string, bitDepth: int,
                     default: Option<Datum>, crc: seq<int> -> Word, compress: seq<int> -> seq<int>)
    requires Emit(data, width, height, colorType, bitDepth, default, crc, compress).outcome.Pass?
    ensures IhdrPayload(width, height, bitDepth, ColorCode(colorType)).Ok?
    ensures DefaultPixel(colorType, default).Ok?
    ensures Raw(data, width, height, colorType, DefaultPixel(colorType, default).value).Ok?
    ensures ReadPng(Emit(data, width, height, colorType, bitDepth, default, crc, compress).written, crc) == Some([
      ChunkView(IhdrTag, IhdrPayload(width, height, bitDepth, ColorCode(colorType)).value),
      ChunkView(IdatTag, compress(Raw(data, width, height, colorType, DefaultPixel(colorType, default).value).value)),
      ChunkView(IendTag, [])])
  {
    EmitBytes(data, width, height, colorType, bitDepth, default, crc, compress);
    var payload := IhdrPayload(width, height, bitDepth, ColorCode(colorType)).value;
    var compressed := compress(Raw(data, width, height, colorType, DefaultPixel(colorType, default).value).value);
    var views := ThreeViews(payload, compressed, crc);
    FileReadBack(views, crc);
  }

  /** The signature followed by chunks reads back as those chunks. */
  lemma FileReadBack(views: seq<ChunkView>, crc: seq<int> -> Word)
    requires forall k :: 0 <= k < |views| ==> |views[k].tag| == 4 && |views[k].payload| < 0x1_0000_0000
    ensures ReadPng(Signature + Chunks(views, crc), crc) == Some(views)
  {
    ChunkListReadBack(views, crc);
    var written := Signature + Chunks(views, crc);
    assert written[..8] == Signature;
    assert written[8..] == Chunks(views, crc);
  }

  /** The bytes of three chunks. */
  lemma ThreeChunks(v1: ChunkView, v2: ChunkView, v3: ChunkView, crc: seq<int> -> Word)
    requires |v1.payload| < 0x1_0000_0000 && |v2.payload| < 0x1_0000_0000 && |v3.payload| < 0x1_0000_0000
    ensures Chunks([v1, v2, v3], crc) ==
      Chunk(v1.tag, v1.payload, crc).value + (Chunk(v2.tag, v2.payload, crc).value + Chunk(v3.tag, v3.payload, crc).value)
  {
    var views := [v1, v2, v3];
    assert Chunks(views[3..], crc) == [];
    assert Chunks(views[2..], crc) == Chunk(v3.tag, v3.payload, crc).value;
    assert Chunks(views[1..], crc) == Chunk(v2.tag, v2.payload, crc).value + Chunk(v3.tag, v3.payload, crc).value;
  }

  /** The bytes of the chunks `views`, one after the other. */
  function Chunks(views: seq<ChunkView>, crc: seq<int> -> Word): seq<int>
    requires forall k :: 0 <= k < |views| ==> |views[k].payload| < 0x1_0000_0000
  {
    if views == [] then [] else Chunk(views[0].tag, views[0].payload, crc).value + Chunks(views[1..], crc)
  }

  /** Chunks written one after the other read back as the same chunks. */
  lemma {:induction false} ChunkListReadBack(views: seq<ChunkView>, crc: seq<int> -> Word)
    requires forall k :: 0 <= k < |views| ==> |views[k].tag| == 4 && |views[k].payload| < 0x1_0000_0000
    ensures ReadChunks(Chunks(views, crc), crc) == Some(views)
  {
    if views != [] {
      ChunkListReadBack(views[1..], crc);
      ChunksReadBack(views[0].tag, views[0].payload, Chunks(views[1..], crc), crc);
      assert [views[0]] + views[1..] == views;
    }
  }

  /** The IHDR, IDAT and IEND chunks as a list, and their bytes. */
  lemma ThreeViews(payload: seq<int>, compressed: seq<int>, crc: seq<int> -> Word) returns (views: seq<ChunkView>)
    requires |payload| < 0x1_0000_0000 && |compressed| < 0x1_0000_0000
    ensures views == [ChunkView(IhdrTag, payload), ChunkView(IdatTag, compressed), ChunkView(IendTag, [])]
    ensures forall k :: 0 <= k < |views| ==> |views[k].tag| == 4 && |views[k].payload| < 0x1_0000_0000
    ensures Chunks(views, crc) ==
      Chunk(IhdrTag, payload, crc).value + (Chunk(IdatTag, compressed, crc).value + Chunk(IendTag, [], crc).value)
  {
    var v1, v2, v3 := ChunkView(IhdrTag, payload), ChunkView(IdatTag, compressed), ChunkView(IendTag, []);
    ThreeChunks(v1, v2, v3, crc);
    views := [v1, v2, v3];
    forall k | 0 <= k < |views|
      ensures |views[k].tag| == 4 && |views[k].payload| < 0x1_0000_0000
    {
      if k == 0 {
        assert views[k] == v1;
      } else if k == 1 {
        assert views[k] == v2;
      } else {
        assert views[k] == v3;
      }
    }
  }

  /** The bytes `save_png` writes when it returns: the signature, then the three chunks. */
  lemma EmitBytes(data: seq<seq<Datum>>, width: int, height: int, colorType: string, bitDepth: int,
                  default: Option<Datum>, crc: seq<int> -> Word, compress: seq<int> -> seq<int>)
    requires Emit(data, width, height, colorType, bitDepth, default, crc, compress).outcome.Pass?
    ensures IhdrPayload(width, height, bitDepth, ColorCode(colorType)).Ok?
    ensures DefaultPixel(colorType, default).Ok?
    ensures Raw(data, width, height, colorType, DefaultPixel(colorType, default).value).Ok?
    ensures var compressed := compress(Raw(data, width, height, colorType, DefaultPixel(colorType, default).value).value);
      |compressed| < 0x1_0000_0000 &&
      Emit(data, width, height, colorType, bitDepth, default, crc, compress).written ==
        Signature + (Chunk(IhdrTag, IhdrPayload(width, height, bitDepth, ColorCode(colorType)).value, crc).value
        + (Chunk(IdatTag, compressed, crc).value + Chunk(IendTag, [], crc).value))
  {
    var ihdr := Ihdr(width, height, bitDepth, colorType, crc);
    assert ihdr.Ok?;
    var idat := Idat(data, width, height, colorType, default, crc, compress);
    assert idat.Ok?;
    var iend := Chunk(IendTag, [], crc).value;
    assert Iend(crc) == iend;
    AppendAssoc(Signature + ihdr.value, idat.value, iend);
    AppendAssoc(Signature, ihdr.value, idat.value + iend);
  }

  /**
   * When `save_png` returns, the file reads back as three chunks, and the
   * IHDR holds the width (the longest row when none is given), the height
   * (`len(data)` when none is given) and the colour type (inferred from the
   * first datum when none is given).
   */
  lemma SaveReadBack(data: seq<seq<Datum>>, width: Option<int>, height: Option<int>, colorType: Option<string>,
                     bitDepth: int, default: Option<Datum>, crc: seq<int> -> Word, compress: seq<int> -> seq<int>)
    requires Save(data, width, height, colorType, bitDepth, default, crc, compress).outcome.Pass?
    ensures ReadPng(Save(data, width, height, colorType, bitDepth, default, crc, compress).written, crc).Some?
    ensures var cs := ReadPng(Save(data, width, height, colorType, bitDepth, default, crc, compress).written, crc).value;
      |cs| == 3 && cs[0].tag == IhdrTag && cs[1].tag == IdatTag && cs[2] == ChunkView(IendTag, []) &&
      |cs[0].payload| == 13 &&
      ReadBig(cs[0].payload[..4]) == (if width.None? then LongestRow(data) else width.value) &&
      ReadBig(cs[0].payload[4..8]) == (if height.None? then |data| else height.value) &&
      cs[0].payload[8] == bitDepth &&
      cs[0].payload[9] == ColorCode(if colorType.Some? then colorType.value else if data[0][0].Int? then "" else "c")
  {
    var h := Height(data, height);
    var w := if width.None? then LongestRow(data) else width.value;
    var t := Inferred(data, colorType);
    EmitReadBack(data, w, h, t, bitDepth, default, crc, compress);
    IhdrFields(w, h, bitDepth, ColorCode(t));
  }

  // ---------------------------------------------------------------------------
  // Properties: how save_png fails

  /**
   * `save_png` either raises `ValueError` or `IndexError` before writing
   * anything, or writes the signature first.
   */
  lemma SaveSignatureFirst(data: seq<seq<Datum>>, width: Option<int>, height: Option<int>, colorType: Option<string>,
                           bitDepth: int, default: Option<Datum>, crc: seq<int> -> Word, compress: seq<int> -> seq<int>)
    ensures var run := Save(data, width, height, colorType, bitDepth, default, crc, compress);
      (run.written == [] ==> run.outcome.Fail? && (run.outcome.error == ValueError || run.outcome.error == IndexError)) &&
      (run.written != [] ==> |run.written| >= 8 && run.written[..8] == Signature)
  {
    var h := Height(data, height);
    if h > 0 && !(width.None? && data == []) {
      var w := if width.None? then LongestRow(data) else width.value;
      if w > 0 && !(colorType.None? && (data == [] || data[0] == [])) {
        var t := Inferred(data, colorType);
        EmitSignatureFirst(data, w, h, t, bitDepth, default, crc, compress);
      }
    }
  }

  /** Whatever `_write_IHDR` and `_write_IDAT` do, the signature has been written. */
  lemma EmitSignatureFirst(data: seq<seq<Datum>>, width: int, height: int, colorType: string, bitDepth: int,
                           default: Option<Datum>, crc: seq<int> -> Word, compress: seq<int> -> seq<int>)
    ensures var written := Emit(data, width, height, colorType, bitDepth, default, crc, compress).written;
      |written| >= 8 && written[..8] == Signature
  {
    var ihdr := Ihdr(width, height, bitDepth, colorType, crc);
    if ihdr.Ok? {
      var idat := Idat(data, width, height, colorType, default, crc, compress);
      if idat.Ok? {
        AppendAssoc(Signature, ihdr.value, idat.value);
        AppendAssoc(Signature, ihdr.value + idat.value, Iend(crc));
      }
    }
  }

  /**
   * A height that is not positive (`len(data)` when none is given), or a
   * width that is not positive (the longest row when none is given), raises
   * `ValueError` before anything is written.
   */
  lemma SaveDimensionErrors(data: seq<seq<Datum>>, width: Option<int>, height: Option<int>, colorType: Option<string>,
                            bitDepth: int, default: Option<Datum>, crc: seq<int> -> Word, compress: seq<int> -> seq<int>)
    ensures (height.None? && data == []) || (height.Some? && height.value <= 0) ==>
      Save(data, width, height, colorType, bitDepth, default, crc, compress) == Run([], Fail(ValueError))
    ensures Height(data, height) > 0 && width.Some? && width.value <= 0 ==>
      Save(data, width, height, colorType, bitDepth, default, crc, compress) == Run([], Fail(ValueError))
    ensures Height(data, height) > 0 && width.None? && data != [] && (forall i :: 0 <= i < |data| ==> data[i] == []) ==>
      Save(data, width, height, colorType, bitDepth, default, crc, compress) == Run([], Fail(ValueError))
  {
    if Height(data, height) > 0 && width.None? && data != [] && (forall i :: 0 <= i < |data| ==> data[i] == []) {
      var i :| 0 <= i < |data| && |data[i]| == LongestRow(data);
      assert data[i] == [];
    }
  }

  /**
   * A colour type that is not empty and has no `'c'` makes `save_png` fail
   * with `ValueError` in `_write_IDAT`, after the IHDR chunk when
   * `_write_IHDR` accepted the colour type.
   */
  lemma EmitRejectsColorType(data: seq<seq<Datum>>, width: int, height: int, colorType: string, bitDepth: int,
                             default: Option<Datum>, crc: seq<int> -> Word, compress: seq<int> -> seq<int>)
    requires colorType != "" && 'c' !in colorType
    ensures var run := Emit(data, width, height, colorType, bitDepth, default, crc, compress);
      run.outcome.Fail? &&
      (Ihdr(width, height, bitDepth, colorType, crc).Ok? ==>
         run == Run(Signature + Ihdr(width, height, bitDepth, colorType, crc).value, Fail(ValueError)))
  {
    assert Idat(data, width, height, colorType, default, crc, compress) == Err(ValueError);
  }

  // ---------------------------------------------------------------------------
  // Properties: the scanlines a decoder sees

  /** `bs` cut into `n` pieces of `size` bytes: a decoder's scanlines, or one scanline's pixels. */
  function Split(bs: seq<int>, n: nat, size: nat): (r: seq<seq<int>>)
    requires |bs| == n * size
    ensures |r| == n && forall i :: 0 <= i < n ==> |r[i]| == size
  {
    if n == 0 then []
    else
      MulSucc(n - 1, size);
      Split(bs[..(n - 1) * size], n - 1, size) + [bs[(n - 1) * size..]]
  }

  /** The pixel a decoder should find at column `j` of a row: the datum's bytes, or the default past the row's end. */
  function Pixel(row: seq<Datum>, j: nat, dp: seq<int>, gray: bool): seq<int>
  {
    if j < |row| && PackDatum(row[j], gray).Ok? then PackDatum(row[j], gray).value else dp
  }

  /**
   * `raw` cuts into `height` scanlines of `1 + width * PixelSize(gray)`
   * bytes, each filter byte 0 followed by `width` pixels: those of the
   * given row, then the default pixel.
   */
  predicate DecodesAs(raw: seq<int>, data: seq<seq<Datum>>, width: nat, height: nat, gray: bool, dp: seq<int>)
  {
    var stride := 1 + width * PixelSize(gray);
    |raw| == height * stride &&
    forall i :: 0 <= i < height ==>
      Split(raw, height, stride)[i][0] == 0 &&
      forall j :: 0 <= j < width ==>
        Split(Split(raw, height, stride)[i][1..], width, PixelSize(gray))[j] == Pixel(if i < |data| then data[i] else [], j, dp, gray)
  }

  lemma MulAdd(m: nat, n: nat, size: nat)
    ensures (m + n) * size == m * size + n * size
  {
  }

  /** Cutting a concatenation is cutting each part. */
  lemma {:induction false} SplitAppend(a: seq<int>, b: seq<int>, m: nat, n: nat, total: nat, size: nat)
    requires |a| == m * size && |b| == n * size && total == m + n
    ensures |a + b| == total * size
    ensures Split(a + b, total, size) == Split(a, m, size) + Split(b, n, size)
    decreases n
  {
    MulAdd(m, n, size);
    if n == 0 {
      assert a + b == a;
    } else {
      MulSucc(n - 1, size);
      MulAdd(m, n - 1, size);
      var front := b[..(n - 1) * size];
      SplitAppend(a, front, m, n - 1, total - 1, size);
      assert (a + b)[..(total - 1) * size] == a + front;
      assert (a + b)[(total - 1) * size..] == b[(n - 1) * size..];
    }
  }

  /** `count` copies of `bs` cut back into `count` copies. */
  lemma {:induction false} SplitRepeat(bs: seq<int>, count: nat, size: nat)
    requires size == |bs|
    ensures forall k :: 0 <= k < count ==> Split(Repeat(bs, count), count, size)[k] == bs
  {
    if count > 0 {
      SplitRepeat(bs, count - 1, size);
      MulSucc(count - 1, |bs|);
      var r := Repeat(bs, count);
      assert r[..(count - 1) * |bs|] == Repeat(bs, count - 1);
      assert r[(count - 1) * |bs|..] == bs;
      assert Split(r, count, size) == Split(Repeat(bs, count - 1), count - 1, size) + [bs];
    }
  }

  lemma SplitOne(bs: seq<int>, size: nat)
    requires |bs| == size
    ensures |bs| == 1 * size && Split(bs, 1, size) == [bs]
  {
    assert bs[..0] == [] && bs[0..] == bs;
  }

  lemma RepeatLength(bs: seq<int>, count: nat, size: nat)
    requires size == |bs|
    ensures |Repeat(bs, count)| == count * size
  {
  }

  /** The packed values of a row are one pixel per datum. */
  lemma {:induction false} ValuesSplit(row: seq<Datum>, gray: bool)
    requires Values(row, gray).Ok?
    ensures |Values(row, gray).value| == |row| * PixelSize(gray)
    ensures forall j :: 0 <= j < |row| ==>
      PackDatum(row[j], gray).Ok? && Split(Values(row, gray).value, |row|, PixelSize(gray))[j] == PackDatum(row[j], gray).value
  {
    if row != [] {
      var c := PixelSize(gray);
      var init := row[..|row| - 1];
      ValuesSplit(init, gray);
      var before := Values(init, gray).value;
      var d := row[|row| - 1];
      assert PackDatum(d, gray).Ok?;
      var last := PackDatum(d, gray).value;
      var v := Values(row, gray).value;
      assert v == before + last;
      SplitOne(last, c);
      SplitAppend(before, last, |init|, 1, |row|, c);
      var front := Split(before, |init|, c);
      assert Split(v, |row|, c) == front + [last];
      assert row == init + [d];
      PacksAppend(front, init, last, d, gray);
    }
  }

  /** Packings of a row's data, one per datum, extended by one more datum's packing. */
  lemma PacksAppend(front: seq<seq<int>>, init: seq<Datum>, last: seq<int>, d: Datum, gray: bool)
    requires |front| == |init| && PackDatum(d, gray) == Ok(last)
    requires forall j :: 0 <= j < |init| ==> PackDatum(init[j], gray).Ok? && front[j] == PackDatum(init[j], gray).value
    ensures forall j :: 0 <= j < |init| + 1 ==>
      PackDatum((init + [d])[j], gray).Ok? && (front + [last])[j] == PackDatum((init + [d])[j], gray).value
  {
    forall j | 0 <= j < |init| + 1
      ensures PackDatum((init + [d])[j], gray).Ok? && (front + [last])[j] == PackDatum((init + [d])[j], gray).value
    {
      if j < |init| {
        assert (init + [d])[j] == init[j] && (front + [last])[j] == front[j];
      }
    }
  }

  /** A given row's scanline: filter byte 0, then its pixels, then default pixels up to `width`. */
  lemma LineSplit(row: seq<Datum>, width: nat, dp: seq<int>, gray: bool)
    requires Line(row, width, dp, gray).Ok? && |row| <= width && |dp| == PixelSize(gray)
    ensures var line := Line(row, width, dp, gray).value;
      |line| == 1 + width * PixelSize(gray) && line[0] == 0 &&
      forall j :: 0 <= j < width ==> Split(line[1..], width, PixelSize(gray))[j] == Pixel(row, j, dp, gray)
  {
    ValuesSplit(row, gray);
    var values := Values(row, gray).value;
    var pad := Repeat(dp, width - |row|);
    PaddedPixels(row, values, width, dp, gray);
    var line := Line(row, width, dp, gray).value;
    assert line == [0] + (values + pad);
    assert line[1..] == values + pad;
  }

  /** A row's packed values, then default pixels up to `width`. */
  lemma PaddedPixels(row: seq<Datum>, values: seq<int>, width: nat, dp: seq<int>, gray: bool)
    requires |row| <= width && |dp| == PixelSize(gray) && |values| == |row| * PixelSize(gray)
    requires forall j :: 0 <= j < |row| ==>
      PackDatum(row[j], gray).Ok? && Split(values, |row|, PixelSize(gray))[j] == PackDatum(row[j], gray).value
    ensures |values + Repeat(dp, width - |row|)| == width * PixelSize(gray)
    ensures forall j :: 0 <= j < width ==>
      Split(values + Repeat(dp, width - |row|), width, PixelSize(gray))[j] == Pixel(row, j, dp, gray)
  {
    var c := PixelSize(gray);
    var pad := Repeat(dp, width - |row|);
    SplitRepeat(dp, width - |row|, c);
    SplitAppend(values, pad, |row|, width - |row|, width, c);
    var parts := Split(values + pad, width, c);
    assert parts == Split(values, |row|, c) + Split(pad, width - |row|, c);
    forall j | 0 <= j < width
      ensures parts[j] == Pixel(row, j, dp, gray)
    {
      if j < |row| {
        assert parts[j] == Split(values, |row|, c)[j] == PackDatum(row[j], gray).value;
      } else {
        var k := j - |row|;
        assert parts[j] == Split(pad, width - |row|, c)[k];
      }
    }
  }

  /** The given rows' scanlines, one per row. */
  lemma {:induction false} RowsSplit(data: seq<seq<Datum>>, width: nat, dp: seq<int>, gray: bool)
    requires Rows(data, width, dp, gray).Ok? && |dp| == PixelSize(gray)
    requires forall i :: 0 <= i < |data| ==> |data[i]| <= width
    ensures |Rows(data, width, dp, gray).value| == |data| * (1 + width * PixelSize(gray))
    ensures forall i :: 0 <= i < |data| ==>
      Line(data[i], width, dp, gray).Ok? &&
      Split(Rows(data, width, dp, gray).value, |data|, 1 + width * PixelSize(gray))[i] == Line(data[i], width, dp, gray).value
  {
    if data != [] {
      var stride := 1 + width * PixelSize(gray);
      var init := data[..|data| - 1];
      RowsSplit(init, width, dp, gray);
      var before := Rows(init, width, dp, gray).value;
      LineSplit(data[|data| - 1], width, dp, gray);
      var last := Line(data[|data| - 1], width, dp, gray).value;
      MulSucc(|init|, stride);
      var v := Rows(data, width, dp, gray).value;
      assert v == before + last;
      assert v[..|init| * stride] == before;
      assert v[|init| * stride..] == last;
      forall i | 0 <= i < |data|
        ensures Line(data[i], width, dp, gray).Ok? && Split(v, |data|, stride)[i] == Line(data[i], width, dp, gray).value
      {
        if i < |init| {
          assert data[i] == init[i];
        }
      }
    }
  }

  /**
   * The buffer with a filter byte before every row, given or missing,
   * decodes as the given rows padded with the default pixel, then rows of
   * default pixels.  The truecolour buffer is this one as written.
   */
  lemma ScanlinesDecode(data: seq<seq<Datum>>, width: nat, height: nat, gray: bool, dp: seq<int>)
    requires ScanlineBuffer(data, width, height, gray, dp).Ok?
    requires |data| <= height && |dp| == PixelSize(gray)
    requires forall i :: 0 <= i < |data| ==> |data[i]| <= width
    ensures DecodesAs(ScanlineBuffer(data, width, height, gray, dp).value, data, width, height, gray, dp)
  {
    BufferLines(data, width, height, gray, dp);
    var raw := ScanlineBuffer(data, width, height, gray, dp).value;
    LinesDecode(Split(raw, height, 1 + width * PixelSize(gray)), data, width, height, gray, dp);
  }

  /** The scanlines of the buffer: the given rows' lines, then the missing rows. */
  lemma BufferLines(data: seq<seq<Datum>>, width: nat, height: nat, gray: bool, dp: seq<int>)
    requires ScanlineBuffer(data, width, height, gray, dp).Ok?
    requires |data| <= height && |dp| == PixelSize(gray)
    requires forall i :: 0 <= i < |data| ==> |data[i]| <= width
    ensures |ScanlineBuffer(data, width, height, gray, dp).value| == height * (1 + width * PixelSize(gray))
    ensures var lines := Split(ScanlineBuffer(data, width, height, gray, dp).value, height, 1 + width * PixelSize(gray));
      (forall i :: 0 <= i < |data| ==> Line(data[i], width, dp, gray).Ok? && lines[i] == Line(data[i], width, dp, gray).value) &&
      (forall i :: |data| <= i < height ==> lines[i] == MissingLine(width, dp, true))
  {
    var stride := 1 + width * PixelSize(gray);
    BufferSplit(data, width, height, gray, dp);
    RowsSplit(data, width, dp, gray);
    var rows := Rows(data, width, dp, gray).value;
    var missing := MissingLine(width, dp, true);
    var lines := Split(ScanlineBuffer(data, width, height, gray, dp).value, height, stride);
    RepeatedTail(lines, Split(rows, |data|, stride), missing, height - |data|, stride);
  }

  /** An element of a list of lines followed by `n` copies of `x` is a front line, or `x`. */
  lemma RepeatedTail(whole: seq<seq<int>>, front: seq<seq<int>>, x: seq<int>, n: nat, size: nat)
    requires |x| == size && |Repeat(x, n)| == n * size
    requires whole == front + Split(Repeat(x, n), n, size)
    ensures forall i :: 0 <= i < |front| ==> whole[i] == front[i]
    ensures forall i :: |front| <= i < |whole| ==> whole[i] == x
  {
    SplitRepeat(x, n, size);
    var back := Split(Repeat(x, n), n, size);
    forall i | |front| <= i < |whole|
      ensures whole[i] == x
    {
      assert whole[i] == back[i - |front|];
    }
  }

  /** The buffer's scanlines are the given rows' scanlines, then the missing rows'. */
  lemma BufferSplit(data: seq<seq<Datum>>, width: nat, height: nat, gray: bool, dp: seq<int>)
    requires ScanlineBuffer(data, width, height, gray, dp).Ok?
    requires |data| <= height && |dp| == PixelSize(gray)
    requires forall i :: 0 <= i < |data| ==> |data[i]| <= width
    ensures |MissingLine(width, dp, true)| == 1 + width * PixelSize(gray)
    ensures |Rows(data, width, dp, gray).value| == |data| * (1 + width * PixelSize(gray))
    ensures |Repeat(MissingLine(width, dp, true), height - |data|)| == (height - |data|) * (1 + width * PixelSize(gray))
    ensures |ScanlineBuffer(data, width, height, gray, dp).value| == height * (1 + width * PixelSize(gray))
    ensures Split(ScanlineBuffer(data, width, height, gray, dp).value, height, 1 + width * PixelSize(gray)) ==
      Split(Rows(data, width, dp, gray).value, |data|, 1 + width * PixelSize(gray)) +
      Split(Repeat(MissingLine(width, dp, true), height - |data|), height - |data|, 1 + width * PixelSize(gray))
  {
    var c := PixelSize(gray);
    var stride := 1 + width * c;
    RowsSplit(data, width, dp, gray);
    var rows := Rows(data, width, dp, gray).value;
    var missing := MissingLine(width, dp, true);
    assert missing == [0] + Repeat(dp, width);
    RepeatLength(dp, width, c);
    var rest := Repeat(missing, height - |data|);
    RepeatLength(missing, height - |data|, stride);
    SplitAppend(rows, rest, |data|, height - |data|, height, stride);
    assert ScanlineBuffer(data, width, height, gray, dp).value == rows + rest;
  }

  /** Scanlines that are the given rows' lines, then missing rows with their filter byte, decode as the image. */
  lemma LinesDecode(lines: seq<seq<int>>, data: seq<seq<Datum>>, width: nat, height: nat, gray: bool, dp: seq<int>)
    requires |lines| == height && |data| <= height && |dp| == PixelSize(gray)
    requires forall i :: 0 <= i < |data| ==> |data[i]| <= width && Line(data[i], width, dp, gray).Ok?
    requires forall i :: 0 <= i < |data| ==> lines[i] == Line(data[i], width, dp, gray).value
    requires forall i :: |data| <= i < height ==> lines[i] == MissingLine(width, dp, true)
    ensures forall i :: 0 <= i < height ==>
      |lines[i]| == 1 + width * PixelSize(gray) && lines[i][0] == 0 &&
      forall j :: 0 <= j < width ==>
        Split(lines[i][1..], width, PixelSize(gray))[j] == Pixel(if i < |data| then data[i] else [], j, dp, gray)
  {
    var c := PixelSize(gray);
    forall i | 0 <= i < height
      ensures |lines[i]| == 1 + width * c && lines[i][0] == 0 &&
        forall j :: 0 <= j < width ==> Split(lines[i][1..], width, c)[j] == Pixel(if i < |data| then data[i] else [], j, dp, gray)
    {
      if i < |data| {
        LineSplit(data[i], width, dp, gray);
      } else {
        var missing := MissingLine(width, dp, true);
        assert missing == [0] + Repeat(dp, width);
        assert missing[1..] == Repeat(dp, width);
        RepeatLength(dp, width, c);
        SplitRepeat(dp, width, c);
      }
    }
  }

  /**
   * The greyscale buffer as `_write_IDAT` writes it: every missing row
   * lacks its filter byte, so the buffer is one byte short per missing row
   * and does not cut into `height` scanlines.
   */
  lemma GrayMissingRowsAsWritten(data: seq<seq<Datum>>, width: nat, height: nat, dp: seq<int>)
    requires Raw(data, width, height, "", dp).Ok? && |dp| == 1 && |data| < height
    requires forall i :: 0 <= i < |data| ==> |data[i]| <= width
    ensures |Raw(data, width, height, "", dp).value| == height * (1 + width) - (height - |data|)
    ensures !DecodesAs(Raw(data, width, height, "", dp).value, data, width, height, true, dp)
  {
    RowsSplit(data, width, dp, true);
    var rows := Rows(data, width, dp, true).value;
    var missing := MissingLine(width, dp, false);
    RepeatLength(dp, width, 1);
    assert |missing| == width;
    var rest := Repeat(missing, height - |data|);
    RepeatLength(missing, height - |data|, width);
    assert Raw(data, width, height, "", dp).value == rows + rest;
    ShortBy(|data|, height, width);
  }

  lemma ShortBy(given: nat, height: nat, width: nat)
    requires given < height
    ensures given * (1 + width) + (height - given) * width == height * (1 + width) - (height - given)
    ensures height * (1 + width) - (height - given) != height * (1 + width)
  {
    MulAdd(given, height - given, 1 + width);
  }

  /** The greyscale buffer with a filter byte before every missing row too, as the truecolour branch writes them. */
  function RawCorrected(data: seq<seq<Datum>>, width: int, height: int, colorType: string, dp: seq<int>): Result<seq<int>>
  {
    if colorType == "" then ScanlineBuffer(data, width, height, true, dp) else Raw(data, width, height, colorType, dp)
  }

  /** With the correction, the greyscale and the truecolour buffers both decode as the image. */
  lemma CorrectedScanlines(data: seq<seq<Datum>>, width: nat, height: nat, colorType: string, dp: seq<int>)
    requires RawCorrected(data, width, height, colorType, dp).Ok?
    requires |data| <= height && |dp| == PixelSize(colorType == "")
    requires forall i :: 0 <= i < |data| ==> |data[i]| <= width
    ensures DecodesAs(RawCorrected(data, width, height, colorType, dp).value, data, width, height, colorType == "", dp)
  {
    ScanlinesDecode(data, width, height, colorType == "", dp);
  }
}
