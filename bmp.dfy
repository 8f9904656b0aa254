/**
 * image-generation/bmp.py: `encode_bmp` writes a 14-byte BITMAPFILEHEADER,
 * a 40-byte BITMAPINFOHEADER and the pixel rows, last row first, each
 * pixel's channels in reverse order (RGB becomes BGR) and each row padded
 * with zero bytes to a multiple of 4.
 *
 * `Encode` is what the function writes, or the exception it raises; the
 * method `EncodeBmp` writes it step by step through a `Sink`.  The file
 * size field is computed as the source computes it; `EncodeCorrected` is
 * the same file with the size the format calls for.
 */
module Bmp {
  import opened Wrappers
  import opened ByteStream

  /** A pixel: its channel values, "should be RGB". */
  type Pixel = seq<int>

  // ---------------------------------------------------------------------------
  // Row geometry

  /** `width * (bpp // 8)`; Dafny's `/` by the positive 8 rounds down as `//` does. */
  function BytesPerRow(width: int, bpp: int): int
  {
    width * (bpp / 8)
  }

  /** `len(padding)`: nothing when a row is a multiple of 4 bytes, else up to the next multiple. */
  function PaddingLength(width: int, bpp: int): nat
  {
    var rem := BytesPerRow(width, bpp) % 4;
    if rem == 0 then 0 else 4 - rem
  }

  /** The padding is the least number of bytes that brings a row to a multiple of 4. */
  lemma PaddingAligns(width: int, bpp: int)
    ensures PaddingLength(width, bpp) < 4
    ensures (BytesPerRow(width, bpp) + PaddingLength(width, bpp)) % 4 == 0
    ensures PaddingLength(width, bpp) == 0 <==> BytesPerRow(width, bpp) % 4 == 0
  {
    var bpr := BytesPerRow(width, bpp);
    var rem := bpr % 4;
    assert bpr == 4 * (bpr / 4) + rem;
    if rem != 0 {
      assert bpr + (4 - rem) == 4 * (bpr / 4 + 1);
    }
  }

  /** `data_size` as the source computes it: `height * (width + len(padding))`. */
  function WrittenDataSize(width: int, height: int, bpp: int): int
  {
    height * (width + PaddingLength(width, bpp))
  }

  /** The size of the pixel array: `height` rows of `bytes_per_row + len(padding)` bytes. */
  function DataSize(width: int, height: int, bpp: int): int
  {
    height * (BytesPerRow(width, bpp) + PaddingLength(width, bpp))
  }

  // ---------------------------------------------------------------------------
  // The headers

  const Magic: seq<int> := [0x42, 0x4D]

  /** The 14-byte file header: `BM`, the file size, two unused fields, the pixel array offset 54. */
  function FileHeader(size: seq<int>): seq<int>
  {
    Magic + size + [0, 0, 0, 0] + [54, 0, 0, 0]
  }

  /** The info header's fields after `bpp`: no compression, raw size 16, 2835 pixels per metre both ways, 0 and 0 colours. */
  const InfoTail: seq<int> := [0, 0, 0, 0] + [16, 0, 0, 0] + [0x13, 0x0B, 0, 0] + [0x13, 0x0B, 0, 0] + [0, 0, 0, 0] + [0, 0, 0, 0]

  /** The 40-byte info header: its own size 40, width, height, 2 planes, bpp, then the fixed fields. */
  function InfoHeader(w: seq<int>, h: seq<int>, bpp: seq<int>): seq<int>
  {
    [40, 0, 0, 0] + w + h + [2, 0] + bpp + InfoTail
  }

  /** The constant fields of the file header and the front of the info header are what `struct.pack` makes of them. */
  lemma PackedConstants()
    ensures Pack(0, 2, false) == Ok([0, 0]) && Pack(54, 4, false) == Ok([54, 0, 0, 0])
    ensures Pack(40, 4, false) == Ok([40, 0, 0, 0]) && Pack(2, 2, false) == Ok([2, 0])
  {
    Limits();
    assert Little(0, 2) == [0, 0] && Little(2, 2) == [2, 0];
    assert Little(54, 4) == [54, 0, 0, 0] && Little(40, 4) == [40, 0, 0, 0];
  }

  /** The fixed fields after `bpp` are `struct.pack('<I', ...)` of 0, 16, 2835, 2835, 0 and 0. */
  lemma PackedInfoTail()
    ensures Pack(0, 4, false).value + Pack(16, 4, false).value + Pack(2835, 4, false).value + Pack(2835, 4, false).value
      + Pack(0, 4, false).value + Pack(0, 4, false).value == InfoTail
  {
    Limits();
    assert Little(0, 4) == [0, 0, 0, 0] && Little(16, 4) == [16, 0, 0, 0] && Little(2835, 4) == [0x13, 0x0B, 0, 0];
    assert Pack(0, 4, false).value == [0, 0, 0, 0] && Pack(16, 4, false).value == [16, 0, 0, 0];
    assert Pack(2835, 4, false).value == [0x13, 0x0B, 0, 0];
  }

  lemma ReadFour(a: int, b: int, c: int, d: int)
    ensures ReadLittle([a, b, c, d]) == a + 256 * b + 65536 * c + 16777216 * d
  {
    assert [a, b, c, d][1..] == [b, c, d] && [b, c, d][1..] == [c, d] && [c, d][1..] == [d] && [d][1..] == [];
    assert ReadLittle([d]) == d;
    assert ReadLittle([c, d]) == c + 256 * d;
    assert ReadLittle([b, c, d]) == b + 256 * c + 65536 * d;
  }

  lemma ReadTwo(a: int, b: int)
    ensures ReadLittle([a, b]) == a + 256 * b
  {
    assert [a, b][1..] == [b] && [b][1..] == [];
    assert ReadLittle([b]) == b;
  }

  /** The header writes, with the file size field `54 + dataSize`. */
  function Header(width: int, height: int, bpp: int, dataSize: int): (res: Result<seq<int>>)
    ensures res.Err? ==> res.error == StructError
  {
    var size :- Pack(14 + 40 + dataSize, 4, false);
    var w :- Pack(width, 4, false);
    var h :- Pack(height, 4, false);
    var b :- Pack(bpp, 2, false);
    Ok(FileHeader(size) + InfoHeader(w, h, b))
  }

  // ---------------------------------------------------------------------------
  // The pixel array

  /** `for value in reversed(pixel)`: each value packed as one byte, last channel first. */
  function Channels(pixel: Pixel): (res: Result<seq<int>>)
    ensures res.Err? ==> res.error == StructError
  {
    if pixel == [] then Ok([])
    else
      var rest :- Channels(pixel[1..]);
      var b :- Pack(pixel[0], 1, false);
      Ok(rest + b)
  }

  /** The pixels of one row, left to right. */
  function Pixels(row: seq<Pixel>): (res: Result<seq<int>>)
    ensures res.Err? ==> res.error == StructError
  {
    if row == [] then Ok([])
    else
      var before :- Pixels(row[..|row| - 1]);
      var last :- Channels(row[|row| - 1]);
      Ok(before + last)
  }

  /** One row as written: its pixels, then the padding. */
  function Line(row: seq<Pixel>, pad: nat): (res: Result<seq<int>>)
    ensures res.Err? ==> res.error == StructError
  {
    var px :- Pixels(row);
    Ok(px + Zeros(pad))
  }

  /** `for i in reversed(range(len(data)))`: the rows, last row first. */
  function Rows(data: seq<seq<Pixel>>, pad: nat): (res: Result<seq<int>>)
    ensures res.Err? ==> res.error == StructError
  {
    if data == [] then Ok([])
    else
      var later :- Rows(data[1..], pad);
      var first :- Line(data[0], pad);
      Ok(later + first)
  }

  /** What `encode_bmp(f, width, height, data, bpp)` writes, or the exception it raises. */
  function Encode(width: int, height: int, data: seq<seq<Pixel>>, bpp: int): Result<seq<int>>
  {
    var header :- Header(width, height, bpp, WrittenDataSize(width, height, bpp));
    var pixels :- Rows(data, PaddingLength(width, bpp));
    Ok(header + pixels)
  }

  /** The same file with the file size field computed from `bytes_per_row`. */
  function EncodeCorrected(width: int, height: int, data: seq<seq<Pixel>>, bpp: int): Result<seq<int>>
  {
    var header :- Header(width, height, bpp, DataSize(width, height, bpp));
    var pixels :- Rows(data, PaddingLength(width, bpp));
    Ok(header + pixels)
  }

  // ---------------------------------------------------------------------------
  // When the writer raises

  predicate AllChannelsBytes(data: seq<seq<Pixel>>)
  {
    forall i, j, k :: 0 <= i < |data| && 0 <= j < |data[i]| && 0 <= k < |data[i][j]| ==> IsByte(data[i][j][k])
  }

  lemma {:induction false} ChannelsOk(pixel: Pixel)
    ensures Channels(pixel).Ok? <==> AllBytes(pixel)
    decreases |pixel|
  {
    Limits();
    if pixel != [] {
      ChannelsOk(pixel[1..]);
      if AllBytes(pixel[1..]) && IsByte(pixel[0]) {
        forall k | 0 <= k < |pixel|
          ensures IsByte(pixel[k])
        {
          if k > 0 {
            assert pixel[k] == pixel[1..][k - 1];
          }
        }
      }
    }
  }

  lemma {:induction false} PixelsOk(row: seq<Pixel>)
    ensures Pixels(row).Ok? <==> forall j :: 0 <= j < |row| ==> AllBytes(row[j])
    decreases |row|
  {
    if row != [] {
      var init := row[..|row| - 1];
      PixelsOk(init);
      ChannelsOk(row[|row| - 1]);
      assert forall j :: 0 <= j < |init| ==> init[j] == row[j];
    }
  }

  lemma {:induction false} RowsOk(data: seq<seq<Pixel>>, pad: nat)
    ensures Rows(data, pad).Ok? <==> AllChannelsBytes(data)
    decreases |data|
  {
    if data != [] {
      RowsOk(data[1..], pad);
      PixelsOk(data[0]);
      assert forall i :: 0 < i < |data| ==> data[1..][i - 1] == data[i];
      if !AllChannelsBytes(data[1..]) {
        var i, j, k :| 0 <= i < |data[1..]| && 0 <= j < |data[1..][i]| && 0 <= k < |data[1..][i][j]|
          && !IsByte(data[1..][i][j][k]);
        assert data[i + 1][j][k] == data[1..][i][j][k];
      }
      if Pixels(data[0]).Err? {
        var j :| 0 <= j < |data[0]| && !AllBytes(data[0][j]);
        var k :| 0 <= k < |data[0][j]| && !IsByte(data[0][j][k]);
      }
      if AllChannelsBytes(data[1..]) && Pixels(data[0]).Ok? {
        forall i, j, k | 0 <= i < |data| && 0 <= j < |data[i]| && 0 <= k < |data[i][j]|
          ensures IsByte(data[i][j][k])
        {
          if i > 0 {
            assert data[i][j][k] == data[1..][i - 1][j][k];
          } else {
            assert AllBytes(data[0][j]);
          }
        }
      }
    }
  }

  /**
   * `encode_bmp` raises `struct.error` exactly when the file size field,
   * the width or the height is not an unsigned 32-bit value, `bpp` is not
   * an unsigned 16-bit value, or some channel value is not a byte.
   */
  lemma EncodeErrors(width: int, height: int, data: seq<seq<Pixel>>, bpp: int)
    ensures Encode(width, height, data, bpp).Ok? <==>
      0 <= 54 + WrittenDataSize(width, height, bpp) < 0x1_0000_0000 && 0 <= width < 0x1_0000_0000
      && 0 <= height < 0x1_0000_0000 && 0 <= bpp < 0x1_0000 && AllChannelsBytes(data)
    ensures Encode(width, height, data, bpp).Err? ==> Encode(width, height, data, bpp).error == StructError
  {
    Limits();
    RowsOk(data, PaddingLength(width, bpp));
  }

  // ---------------------------------------------------------------------------
  // The layout of the file

  /** The fields a reader finds in the 54 header bytes; `fixed` holds the info header's last 24 bytes unread. */
  datatype Fields = Fields(size: int, offset: int, infoSize: int, width: int, height: int, planes: int,
                           bpp: int, fixed: seq<int>)

  /** A reader's view of the 54 header bytes, or `None` without the `BM` magic. */
  function ReadHeader(bs: seq<int>): Option<Fields>
  {
    if |bs| < 54 || bs[..2] != Magic then None
    else
      var file, info := bs[..14], bs[14..54];
      Some(Fields(ReadLittle(file[2..6]), ReadLittle(file[10..14]), ReadLittle(info[..4]), ReadLittle(info[4..8]),
                  ReadLittle(info[8..12]), ReadLittle(info[12..14]), ReadLittle(info[14..16]), info[16..]))
  }

  lemma FileHeaderParts(size: seq<int>)
    requires |size| == 4
    ensures var v := FileHeader(size);
      |v| == 14 && v[..2] == Magic && v[2..6] == size && v[10..14] == [54, 0, 0, 0]
  {
    var v := FileHeader(size);
    assert v == (Magic + size) + ([0, 0, 0, 0] + [54, 0, 0, 0]);
    assert (Magic + size)[..2] == Magic;
  }

  lemma InfoHeaderParts(w: seq<int>, h: seq<int>, bpp: seq<int>)
    requires |w| == 4 && |h| == 4 && |bpp| == 2
    ensures var v := InfoHeader(w, h, bpp);
      |v| == 40 && v[..4] == [40, 0, 0, 0] && v[4..8] == w && v[8..12] == h && v[12..14] == [2, 0]
      && v[14..16] == bpp && v[16..] == InfoTail
  {
    var front := [40, 0, 0, 0] + w + h;
    var v := InfoHeader(w, h, bpp);
    assert v == front + ([2, 0] + bpp) + InfoTail;
    assert v[..12] == front;
    assert v[12..16] == [2, 0] + bpp;
  }

  /**
   * The header read back: the size field `54 + dataSize`, offset 54, info
   * size 40, the dimensions, 2 planes, `bpp` and the fixed fields.
   */
  lemma HeaderReadBack(width: int, height: int, bpp: int, dataSize: int, tail: seq<int>)
    requires Header(width, height, bpp, dataSize).Ok?
    ensures |Header(width, height, bpp, dataSize).value| == 54
    ensures ReadHeader(Header(width, height, bpp, dataSize).value + tail)
      == Some(Fields(54 + dataSize, 54, 40, width, height, 2, bpp, InfoTail))
  {
    var size, w, h, b := Pack(54 + dataSize, 4, false).value, Pack(width, 4, false).value,
      Pack(height, 4, false).value, Pack(bpp, 2, false).value;
    FileHeaderParts(size);
    InfoHeaderParts(w, h, b);
    var file, info := FileHeader(size), InfoHeader(w, h, b);
    var v := file + info + tail;
    assert v[..14] == file;
    assert v[14..54] == info;
    assert v[..2] == file[..2];
    ReadFour(54, 0, 0, 0);
    ReadFour(40, 0, 0, 0);
    ReadTwo(2, 0);
  }

  // ---------------------------------------------------------------------------
  // The pixel array, read back

  /** `reversed(pixel)` */
  function Reversed(p: seq<int>): (r: seq<int>)
    ensures |r| == |p|
  {
    if p == [] then [] else Reversed(p[1..]) + [p[0]]
  }

  lemma {:induction false} ReversedIndex(p: seq<int>, k: nat)
    requires k < |p|
    ensures Reversed(p)[k] == p[|p| - 1 - k]
    decreases |p|
  {
    if k < |p| - 1 {
      ReversedIndex(p[1..], k);
    }
  }

  /** Reversing twice gives the pixel back. */
  lemma ReversedTwice(p: seq<int>)
    ensures Reversed(Reversed(p)) == p
  {
    forall k | 0 <= k < |p|
      ensures Reversed(Reversed(p))[k] == p[k]
    {
      ReversedIndex(Reversed(p), k);
      ReversedIndex(p, |p| - 1 - k);
    }
  }

  lemma {:induction false} ChannelsValue(pixel: Pixel)
    requires AllBytes(pixel)
    ensures Channels(pixel) == Ok(Reversed(pixel))
    decreases |pixel|
  {
    Limits();
    if pixel != [] {
      ChannelsValue(pixel[1..]);
      assert Little(pixel[0], 1) == [pixel[0] % 256] + Little(pixel[0] / 256, 0) == [pixel[0]];
    }
  }

  /** Every row has `width` pixels of `c` channels. */
  predicate Uniform(data: seq<seq<Pixel>>, width: nat, c: nat)
  {
    forall i :: 0 <= i < |data| ==> |data[i]| == width && forall j :: 0 <= j < width ==> |data[i][j]| == c
  }

  /** A reader's view of one row of `width` pixels of `c` channels, each stored reversed. */
  function ReadRow(bs: seq<int>, width: nat, c: nat): seq<Pixel>
    requires |bs| == width * c
    decreases width
  {
    if width == 0 then [] else ReadRow(bs[..|bs| - c], width - 1, c) + [Reversed(bs[|bs| - c..])]
  }

  /** A reader's view of the pixel array: `n` padded rows, the last one in the file being the first row of the image. */
  function ReadPixels(bs: seq<int>, n: nat, width: nat, c: nat, pad: nat): seq<seq<Pixel>>
    requires |bs| == n * (width * c + pad)
    decreases n
  {
    if n == 0 then []
    else
      var stride := width * c + pad;
      var line := bs[|bs| - stride..];
      [ReadRow(line[..width * c], width, c)] + ReadPixels(bs[..|bs| - stride], n - 1, width, c, pad)
  }

  /** A row of byte pixels of `c` channels is written as `|row| * c` bytes that read back as the row. */
  lemma {:induction false} RowReadBack(row: seq<Pixel>, c: nat)
    requires forall j :: 0 <= j < |row| ==> |row[j]| == c && AllBytes(row[j])
    ensures Pixels(row).Ok? && |Pixels(row).value| == |row| * c
    ensures ReadRow(Pixels(row).value, |row|, c) == row
    decreases |row|
  {
    if row != [] {
      var init := row[..|row| - 1];
      var last := row[|row| - 1];
      RowReadBack(init, c);
      ChannelsValue(last);
      ReversedTwice(last);
      var before := Pixels(init).value;
      var v := Pixels(row).value;
      assert v == before + Reversed(last);
      MulSucc(|init|, c);
      assert v[..|v| - c] == before;
      assert v[|v| - c..] == Reversed(last);
    }
  }

  /** The rows are written last row first, `width * c + pad` bytes each, and read back in their order. */
  lemma {:induction false} PixelsReadBack(data: seq<seq<Pixel>>, pad: nat, width: nat, c: nat)
    requires Uniform(data, width, c) && AllChannelsBytes(data)
    ensures Rows(data, pad).Ok? && |Rows(data, pad).value| == |data| * (width * c + pad)
    ensures ReadPixels(Rows(data, pad).value, |data|, width, c, pad) == data
    decreases |data|
  {
    RowsOk(data, pad);
    if data != [] {
      var rest := data[1..];
      SplitFirstRow(data, width, c);
      PixelsReadBack(rest, pad, width, c);
      RowReadBack(data[0], c);
      var later := Rows(rest, pad).value;
      var px := Pixels(data[0]).value;
      var line := px + Zeros(pad);
      assert Rows(data, pad).value == later + line;
      ReadPixelsStep(later, line, |rest|, width, c, pad);
      assert line[..width * c] == px;
      assert ReadRow(px, width, c) == data[0];
      assert data == [data[0]] + rest;
    }
  }

  /** The rows after the first are uniform byte rows, and so are the first row's pixels. */
  lemma SplitFirstRow(data: seq<seq<Pixel>>, width: nat, c: nat)
    requires data != [] && Uniform(data, width, c) && AllChannelsBytes(data)
    ensures Uniform(data[1..], width, c) && AllChannelsBytes(data[1..])
    ensures |data[0]| == width && forall j :: 0 <= j < |data[0]| ==> |data[0][j]| == c && AllBytes(data[0][j])
  {
    var rest := data[1..];
    assert forall i :: 0 <= i < |rest| ==> rest[i] == data[i + 1];
  }

  /** A padded line written after `n` of them is the first row a reader finds. */
  lemma ReadPixelsStep(later: seq<int>, line: seq<int>, n: nat, width: nat, c: nat, pad: nat)
    requires |later| == n * (width * c + pad) && |line| == width * c + pad
    ensures |later + line| == (n + 1) * (width * c + pad)
    ensures ReadPixels(later + line, n + 1, width, c, pad)
      == [ReadRow(line[..width * c], width, c)] + ReadPixels(later, n, width, c, pad)
  {
    var stride := width * c + pad;
    var v := later + line;
    MulSucc(n, stride);
    assert v[|v| - stride..] == line;
    assert v[..|v| - stride] == later;
  }

  // ---------------------------------------------------------------------------
  // The size field

  /** The written file's length: 54 header bytes, then a padded row per row of `data`. */
  lemma EncodeLength(width: int, height: int, data: seq<seq<Pixel>>, bpp: int)
    requires 0 <= width && 8 <= bpp && Uniform(data, width, bpp / 8) && Encode(width, height, data, bpp).Ok?
    ensures |Encode(width, height, data, bpp).value| == 54 + |data| * (BytesPerRow(width, bpp) + PaddingLength(width, bpp))
  {
    var pad, c := PaddingLength(width, bpp), bpp / 8;
    var dataSize := WrittenDataSize(width, height, bpp);
    assert Header(width, height, bpp, dataSize).Ok? && Rows(data, pad).Ok?;
    HeaderLength(width, height, bpp, dataSize);
    RowsLength(data, pad, width, c);
    assert width * c + pad == BytesPerRow(width, bpp) + pad;
  }

  lemma HeaderLength(width: int, height: int, bpp: int, dataSize: int)
    requires Header(width, height, bpp, dataSize).Ok?
    ensures |Header(width, height, bpp, dataSize).value| == 54
  {
    HeaderReadBack(width, height, bpp, dataSize, []);
  }

  lemma RowsLength(data: seq<seq<Pixel>>, pad: nat, width: nat, c: nat)
    requires Uniform(data, width, c) && Rows(data, pad).Ok?
    ensures |Rows(data, pad).value| == |data| * (width * c + pad)
  {
    RowsOk(data, pad);
    PixelsReadBack(data, pad, width, c);
  }

  /**
   * As written, the size field counts `width` bytes per row where a row has
   * `bytes_per_row`: whenever a pixel takes more than one byte the field is
   * smaller than the file (a one-pixel 24-bit image: 56 against 58).
   */
  lemma SizeFieldAsWritten(width: int, height: int, data: seq<seq<Pixel>>, bpp: int)
    requires 1 <= width && 16 <= bpp && 1 <= |data| == height && Uniform(data, width, bpp / 8)
    requires Encode(width, height, data, bpp).Ok?
    ensures ReadHeader(Encode(width, height, data, bpp).value).Some?
    ensures ReadHeader(Encode(width, height, data, bpp).value).value.size < |Encode(width, height, data, bpp).value|
  {
    EncodeLength(width, height, data, bpp);
    SizeField(width, height, data, bpp);
    SizeShort(width, height, bpp);
  }

  /** `height * (width + len(padding))` falls short of `height` padded rows of `bytes_per_row`. */
  lemma SizeShort(width: int, height: int, bpp: int)
    requires 1 <= width && 16 <= bpp && 1 <= height
    ensures WrittenDataSize(width, height, bpp) < height * (BytesPerRow(width, bpp) + PaddingLength(width, bpp))
  {
    var pad := PaddingLength(width, bpp);
    MulGrows(width, bpp / 8);
    MulLess(height, width + pad, BytesPerRow(width, bpp) + pad);
  }

  lemma MulGrows(w: int, c: int)
    requires 1 <= w && 2 <= c
    ensures w < w * c
  {
  }

  lemma MulLess(h: int, a: int, b: int)
    requires 1 <= h && a < b
    ensures h * a < h * b
  {
  }

  /** The size field `encode_bmp` writes: 54 plus `height * (width + len(padding))`. */
  lemma SizeField(width: int, height: int, data: seq<seq<Pixel>>, bpp: int)
    requires Encode(width, height, data, bpp).Ok?
    ensures ReadHeader(Encode(width, height, data, bpp).value).Some?
    ensures ReadHeader(Encode(width, height, data, bpp).value).value.size == 54 + WrittenDataSize(width, height, bpp)
  {
    var ds := WrittenDataSize(width, height, bpp);
    var header, rows := Header(width, height, bpp, ds), Rows(data, PaddingLength(width, bpp));
    assert header.Ok? && rows.Ok?;
    assert Encode(width, height, data, bpp).value == header.value + rows.value;
    HeaderReadBack(width, height, bpp, ds, rows.value);
  }

  /** With the size computed from `bytes_per_row`, the size field is the length of the file. */
  lemma CorrectedSizeField(width: int, height: int, data: seq<seq<Pixel>>, bpp: int)
    requires 0 <= width && 8 <= bpp && |data| == height && Uniform(data, width, bpp / 8)
    requires EncodeCorrected(width, height, data, bpp).Ok?
    ensures ReadHeader(EncodeCorrected(width, height, data, bpp).value).Some?
    ensures ReadHeader(EncodeCorrected(width, height, data, bpp).value).value.size
      == |EncodeCorrected(width, height, data, bpp).value|
  {
    var pad := PaddingLength(width, bpp);
    var ds := DataSize(width, height, bpp);
    var header := Header(width, height, bpp, ds);
    var rows := Rows(data, pad);
    assert header.Ok? && rows.Ok?;
    assert EncodeCorrected(width, height, data, bpp).value == header.value + rows.value;
    RowsOk(data, pad);
    PixelsReadBack(data, pad, width, bpp / 8);
    assert ds == |data| * (width * (bpp / 8) + pad);
    assert |rows.value| == ds;
    HeaderReadBack(width, height, bpp, ds, rows.value);
  }

  // ---------------------------------------------------------------------------
  // The writer

  /** `for value in reversed(data[i][j])`: one byte per channel, last channel first. */
  method WriteChannels(f: Sink, pixel: Pixel) returns (r: Outcome)
    modifies f
    ensures r == if Channels(pixel).Ok? then Pass else Fail(Channels(pixel).error)
    ensures Channels(pixel).Ok? ==> f.written == old(f.written) + Channels(pixel).value
    ensures old(f.written) <= f.written
  {
    ghost var start := f.written;
    for k := |pixel| downto 0
      invariant Channels(pixel[k..]).Ok?
      invariant f.written == start + Channels(pixel[k..]).value
    {
      assert pixel[k..][1..] == pixel[k + 1..];
      var b := Pack(pixel[k], 1, false);
      if b.Err? {
        ChannelsFailSpreads(pixel, k);
        return Fail(b.error);
      }
      f.Write(b.value);
    }
    assert pixel[0..] == pixel;
    return Pass;
  }

  /** A channel that fails makes every longer suffix fail, the whole pixel included. */
  lemma {:induction false} ChannelsFailSpreads(pixel: Pixel, k: nat)
    requires k < |pixel| && Pack(pixel[k], 1, false).Err?
    ensures Channels(pixel) == Err(StructError)
  {
    ChannelsOk(pixel);
    Limits();
    assert !IsByte(pixel[k]);
  }

  /** `for j in range(len(data[i]))`: the pixels of one row. */
  method WriteRowPixels(f: Sink, row: seq<Pixel>) returns (r: Outcome)
    modifies f
    ensures r == if Pixels(row).Ok? then Pass else Fail(Pixels(row).error)
    ensures Pixels(row).Ok? ==> f.written == old(f.written) + Pixels(row).value
    ensures old(f.written) <= f.written
  {
    ghost var start := f.written;
    for j := 0 to |row|
      invariant Pixels(row[..j]).Ok?
      invariant f.written == start + Pixels(row[..j]).value
    {
      assert row[..j + 1][..j] == row[..j];
      r := WriteChannels(f, row[j]);
      if r.Fail? {
        PixelsFailSpreads(row, j);
        return;
      }
      assert Pixels(row[..j + 1]).value == Pixels(row[..j]).value + Channels(row[j]).value;
    }
    assert row[..|row|] == row;
    return Pass;
  }

  lemma PixelsFailSpreads(row: seq<Pixel>, j: nat)
    requires j < |row| && Channels(row[j]).Err?
    ensures Pixels(row) == Err(StructError)
  {
    PixelsOk(row);
    ChannelsOk(row[j]);
  }

  /** One row: its pixels, then `f.write(padding)`. */
  method WriteLine(f: Sink, row: seq<Pixel>, padding: seq<int>) returns (r: Outcome)
    requires padding == Zeros(|padding|)
    modifies f
    ensures r == if Line(row, |padding|).Ok? then Pass else Fail(Line(row, |padding|).error)
    ensures Line(row, |padding|).Ok? ==> f.written == old(f.written) + Line(row, |padding|).value
    ensures old(f.written) <= f.written
  {
    r := WriteRowPixels(f, row);
    if r.Fail? {
      return;
    }
    f.Write(padding);
  }

  /** The pixel array: `for i in reversed(range(len(data)))`. */
  method WriteRows(f: Sink, data: seq<seq<Pixel>>, padding: seq<int>) returns (r: Outcome)
    requires padding == Zeros(|padding|)
    modifies f
    ensures r == if Rows(data, |padding|).Ok? then Pass else Fail(Rows(data, |padding|).error)
    ensures Rows(data, |padding|).Ok? ==> f.written == old(f.written) + Rows(data, |padding|).value
    ensures old(f.written) <= f.written
  {
    ghost var start := f.written;
    ghost var pad := |padding|;
    for i := |data| downto 0
      invariant Rows(data[i..], pad).Ok?
      invariant f.written == start + Rows(data[i..], pad).value
    {
      assert data[i..][1..] == data[i + 1..];
      r := WriteLine(f, data[i], padding);
      if r.Fail? {
        RowsFailSpreads(data, i, pad);
        return;
      }
    }
    assert data[0..] == data;
    return Pass;
  }

  lemma RowsFailSpreads(data: seq<seq<Pixel>>, i: nat, pad: nat)
    requires i < |data| && Line(data[i], pad).Err?
    ensures Rows(data, pad) == Err(StructError)
  {
    RowsOk(data, pad);
    PixelsOk(data[i]);
    var j :| 0 <= j < |data[i]| && !AllBytes(data[i][j]);
    var k :| 0 <= k < |data[i][j]| && !IsByte(data[i][j][k]);
  }

  /** The 14-byte file header, written field by field. */
  method WriteFileHeader(f: Sink, dataSize: int) returns (r: Outcome)
    modifies f
    ensures r == if Pack(14 + 40 + dataSize, 4, false).Ok? then Pass else Fail(StructError)
    ensures r.Pass? ==> f.written == old(f.written) + FileHeader(Pack(14 + 40 + dataSize, 4, false).value)
    ensures old(f.written) <= f.written
  {
    f.Write(Magic);
    var size := Pack(14 + 40 + dataSize, 4, false);
    if size.Err? {
      return Fail(size.error);
    }
    f.Write(size.value);
    f.Write([0, 0]);
    f.Write([0, 0]);
    f.Write([54, 0, 0, 0]);
    return Pass;
  }

  /** The 40-byte info header, written field by field. */
  method WriteInfoHeader(f: Sink, width: int, height: int, bpp: int) returns (r: Outcome)
    modifies f
    ensures var w, h, b := Pack(width, 4, false), Pack(height, 4, false), Pack(bpp, 2, false);
      r == if w.Ok? && h.Ok? && b.Ok? then Pass else Fail(StructError)
    ensures r.Pass? ==> f.written == old(f.written) + InfoHeader(Pack(width, 4, false).value, Pack(height, 4, false).value, Pack(bpp, 2, false).value)
    ensures old(f.written) <= f.written
  {
    ghost var start := f.written;
    f.Write([40, 0, 0, 0]);
    ghost var expected: seq<int> := [40, 0, 0, 0];
    var w := Pack(width, 4, false);
    if w.Err? {
      return Fail(w.error);
    }
    f.Write(w.value);
    AppendAssoc(start, expected, w.value);
    expected := expected + w.value;
    var h := Pack(height, 4, false);
    if h.Err? {
      return Fail(h.error);
    }
    f.Write(h.value);
    AppendAssoc(start, expected, h.value);
    expected := expected + h.value;
    f.Write([2, 0]);
    AppendAssoc(start, expected, [2, 0]);
    expected := expected + [2, 0];
    var b := Pack(bpp, 2, false);
    if b.Err? {
      return Fail(b.error);
    }
    f.Write(b.value);
    AppendAssoc(start, expected, b.value);
    expected := expected + b.value;
    WriteInfoTail(f);
    AppendAssoc(start, expected, InfoTail);
    return Pass;
  }

  /** Compression, raw size, the two resolutions and the two colour counts. */
  method WriteInfoTail(f: Sink)
    modifies f
    ensures f.written == old(f.written) + InfoTail
  {
    ghost var start := f.written;
    f.Write([0, 0, 0, 0]);
    f.Write([16, 0, 0, 0]);
    AppendAssoc(start, [0, 0, 0, 0], [16, 0, 0, 0]);
    ghost var expected: seq<int> := [0, 0, 0, 0] + [16, 0, 0, 0];
    f.Write([0x13, 0x0B, 0, 0]);
    AppendAssoc(start, expected, [0x13, 0x0B, 0, 0]);
    expected := expected + [0x13, 0x0B, 0, 0];
    f.Write([0x13, 0x0B, 0, 0]);
    AppendAssoc(start, expected, [0x13, 0x0B, 0, 0]);
    expected := expected + [0x13, 0x0B, 0, 0];
    f.Write([0, 0, 0, 0]);
    AppendAssoc(start, expected, [0, 0, 0, 0]);
    expected := expected + [0, 0, 0, 0];
    f.Write([0, 0, 0, 0]);
    AppendAssoc(start, expected, [0, 0, 0, 0]);
  }

  /** The 54 header bytes: the file header, then the info header. */
  method WriteHeader(f: Sink, width: int, height: int, bpp: int, dataSize: int) returns (r: Outcome)
    modifies f
    ensures r == if Header(width, height, bpp, dataSize).Ok? then Pass else Fail(Header(width, height, bpp, dataSize).error)
    ensures Header(width, height, bpp, dataSize).Ok? ==> f.written == old(f.written) + Header(width, height, bpp, dataSize).value
    ensures old(f.written) <= f.written
  {
    ghost var start := f.written;
    r := WriteFileHeader(f, dataSize);
    if r.Fail? {
      return;
    }
    ghost var file := f.written;
    r := WriteInfoHeader(f, width, height, bpp);
    if r.Pass? {
      AppendAssoc(start, FileHeader(Pack(14 + 40 + dataSize, 4, false).value),
        InfoHeader(Pack(width, 4, false).value, Pack(height, 4, false).value, Pack(bpp, 2, false).value));
    }
  }

  /** `bytes_per_row` and the zero bytes that pad a row to a multiple of 4. */
  method RowPadding(width: int, bpp: int) returns (padding: seq<int>)
    ensures padding == Zeros(PaddingLength(width, bpp))
  {
    var bytesPerRow := width * (bpp / 8);
    if bytesPerRow % 4 == 0 {
      padding := Zeros(0);
    } else {
      padding := Zeros(4 - bytesPerRow % 4);
    }
  }

  /**
   * `encode_bmp(f, width, height, data, bpp)`: writes exactly `Encode(...)`
   * when it succeeds, raises the same exception otherwise, and only ever
   * appends to `f`.
   */
  method EncodeBmp(f: Sink, width: int, height: int, data: seq<seq<Pixel>>, bpp: int) returns (r: Outcome)
    modifies f
    ensures r == if Encode(width, height, data, bpp).Ok? then Pass else Fail(Encode(width, height, data, bpp).error)
    ensures Encode(width, height, data, bpp).Ok? ==> f.written == old(f.written) + Encode(width, height, data, bpp).value
    ensures old(f.written) <= f.written
  {
    var padding := RowPadding(width, bpp);
    var dataSize := height * (width + |padding|);
    ghost var start := f.written;
    r := WriteHeader(f, width, height, bpp, dataSize);
    if r.Fail? {
      return;
    }
    assert dataSize == WrittenDataSize(width, height, bpp);
    ghost var header := Header(width, height, bpp, dataSize).value;
    r := WriteRows(f, data, padding);
    if r.Pass? {
      ghost var pixels := Rows(data, |padding|).value;
      AppendAssoc(start, header, pixels);
      assert Encode(width, height, data, bpp).value == header + pixels;
    }
  }
}
