/**
 * image-gen/gif.py: an uncompressed GIF89a writer.  The image indices are
 * sent as 9-bit codes, packed least significant bit first into bytes by
 * `convert_little_endian_9bits`, and split into data sub-blocks.
 *
 * The packer works on Python strings of binary digits, most significant
 * first; here such a string is a `seq<bool>`.
 */
module Gif {
  import opened Wrappers
  import opened ByteStream

  // ---------------------------------------------------------------------------
  // Binary digits

  function Pow2(w: nat): (p: int)
    ensures p >= 1
  {
    if w == 0 then 1 else 2 * Pow2(w - 1)
  }

  function Bit(b: bool): int
  {
    if b then 1 else 0
  }

  /** `bin(n)[2:]`: the binary digits of `n` without leading zeros ("0" for 0). */
  function BinDigits(n: nat): (r: seq<bool>)
    ensures |r| >= 1
  {
    if n < 2 then [n == 1] else BinDigits(n / 2) + [n % 2 == 1]
  }

  /** `s.zfill(w)`: `s` with zeros in front up to `w` digits. */
  function ZFill(s: seq<bool>, w: nat): (r: seq<bool>)
    ensures |s| <= w ==> |r| == w
  {
    if |s| >= w then s else seq(w - |s|, i => false) + s
  }

  /** `int(s, base=2)`: the number the digits `s` write, most significant first. */
  function ParseBinary(s: seq<bool>): int
  {
    if s == [] then 0 else 2 * ParseBinary(s[..|s| - 1]) + Bit(s[|s| - 1])
  }

  /** The `w` low bits of `n`, most significant first. */
  function Binary(n: nat, w: nat): (r: seq<bool>)
    ensures |r| == w
  {
    if w == 0 then [] else Binary(n / 2, w - 1) + [n % 2 == 1]
  }

  /** The `w` low bits of `n`, least significant first: the order of the GIF code stream. */
  function Lsb(n: nat, w: nat): (r: seq<bool>)
    ensures |r| == w
  {
    if w == 0 then [] else [n % 2 == 1] + Lsb(n / 2, w - 1)
  }

  /** The number whose bits, least significant first, are `bits`. */
  function Value(bits: seq<bool>): (v: int)
    ensures 0 <= v < Pow2(|bits|)
  {
    if bits == [] then 0 else Bit(bits[0]) + 2 * Value(bits[1..])
  }

  function Reverse<T>(s: seq<T>): (r: seq<T>)
    ensures |r| == |s|
  {
    seq(|s|, i requires 0 <= i < |s| => s[|s| - 1 - i])
  }

  lemma ReverseAppend<T>(x: seq<T>, y: seq<T>)
    ensures Reverse(x + y) == Reverse(y) + Reverse(x)
  {
    assert forall i :: 0 <= i < |x + y| ==> Reverse(x + y)[i] == (Reverse(y) + Reverse(x))[i];
  }

  lemma {:induction false} LsbValue(n: nat, w: nat)
    requires n < Pow2(w)
    ensures Value(Lsb(n, w)) == n
    decreases w
  {
    if w > 0 {
      LsbValue(n / 2, w - 1);
      assert Lsb(n, w)[1..] == Lsb(n / 2, w - 1);
    }
  }

  lemma {:induction false} ValueLsb(bits: seq<bool>)
    ensures Lsb(Value(bits), |bits|) == bits
    decreases |bits|
  {
    if bits != [] {
      ValueLsb(bits[1..]);
      assert Value(bits) / 2 == Value(bits[1..]);
    }
  }

  lemma {:induction false} BinaryReversed(n: nat, w: nat)
    ensures Reverse(Binary(n, w)) == Lsb(n, w)
    decreases w
  {
    if w > 0 {
      BinaryReversed(n / 2, w - 1);
      ReverseAppend(Binary(n / 2, w - 1), [n % 2 == 1]);
    }
  }

  lemma {:induction false} BinaryOfZero(w: nat)
    ensures Binary(0, w) == seq(w, i => false)
    decreases w
  {
    if w > 0 {
      BinaryOfZero(w - 1);
    }
  }

  lemma {:induction false} BinDigitsLength(n: nat, w: nat)
    requires w >= 1 && n < Pow2(w)
    ensures |BinDigits(n)| <= w
    decreases w
  {
    if n >= 2 {
      BinDigitsLength(n / 2, w - 1);
    }
  }

  /** For `n < 2^w`, `bin(n)[2:].zfill(w)` is the `w` low bits of `n`, most significant first. */
  lemma {:induction false} ZFilledDigits(n: nat, w: nat)
    requires w >= 1 && n < Pow2(w)
    ensures ZFill(BinDigits(n), w) == Binary(n, w)
    decreases w
  {
    if n < 2 {
      BinaryOfZero(w - 1);
      assert n / 2 == 0;
    } else {
      BinDigitsLength(n / 2, w - 1);
      ZFilledDigits(n / 2, w - 1);
      var x := BinDigits(n / 2);
      assert seq(w - |x + [n % 2 == 1]|, i => false) == seq(w - 1 - |x|, i => false);
    }
  }

  /** `int(s, base=2)` reads the digits back to front as bits, least significant first. */
  lemma {:induction false} ParseBinaryValue(s: seq<bool>)
    ensures ParseBinary(s) == Value(Reverse(s))
    decreases |s|
  {
    if s != [] {
      ParseBinaryValue(s[..|s| - 1]);
      assert Reverse(s)[1..] == Reverse(s[..|s| - 1]);
    }
  }

  // ---------------------------------------------------------------------------
  // The code stream (GIF89a Appendix F) and its packing into bytes

  predicate NineBit(codes: seq<int>)
  {
    forall k :: 0 <= k < |codes| ==> 0 <= codes[k] < 512
  }

  /** The codes' bits, 9 per code, each code least significant bit first. */
  function Stream(codes: seq<int>): (r: seq<bool>)
    requires NineBit(codes)
    ensures |r| == 9 * |codes|
  {
    if codes == [] then [] else Stream(codes[..|codes| - 1]) + Lsb(codes[|codes| - 1], 9)
  }

  /** The zero bits that fill the last byte. */
  function PadBits(n: nat): nat
  {
    (8 - (9 * n) % 8) % 8
  }

  /** The stream filled up with zero bits to whole bytes. */
  function Padded(codes: seq<int>): (r: seq<bool>)
    requires NineBit(codes)
    ensures |r| % 8 == 0
  {
    PadBitsFill(|codes|);
    Stream(codes) + seq(PadBits(|codes|), i => false)
  }

  /** The padding completes the last byte of `n` codes. */
  lemma PadBitsFill(n: nat)
    ensures (9 * n + PadBits(n)) % 8 == 0
  {
    var q, r := (9 * n) / 8, (9 * n) % 8;
    assert 9 * n == 8 * q + r;
    if r == 0 {
      assert PadBits(n) == 0;
    } else {
      assert PadBits(n) == 8 - r;
      assert 9 * n + PadBits(n) == 8 * (q + 1);
    }
  }

  /** Every 8 bits, least significant first, as one byte. */
  function Bytes(bits: seq<bool>): (r: seq<int>)
    requires |bits| % 8 == 0
    ensures |r| == |bits| / 8
  {
    if bits == [] then [] else Bytes(bits[..|bits| - 8]) + [Value(bits[|bits| - 8..])]
  }

  /** The bytes the codes are packed into. */
  function Packed(codes: seq<int>): seq<int>
    requires NineBit(codes)
  {
    Bytes(Padded(codes))
  }

  /** The bits of the bytes, each byte least significant bit first. */
  function Unbytes(bytes: seq<int>): (r: seq<bool>)
    requires AllBytes(bytes)
    ensures |r| == 8 * |bytes|
  {
    if bytes == [] then [] else Unbytes(bytes[..|bytes| - 1]) + Lsb(bytes[|bytes| - 1], 8)
  }

  /** A decoder's reading of `n` 9-bit codes from packed bytes. */
  function Unpack(bytes: seq<int>, n: nat): (r: seq<int>)
    requires AllBytes(bytes) && 9 * n <= 8 * |bytes|
    ensures |r| == n
  {
    var bits := Unbytes(bytes);
    seq(n, k requires 0 <= k < n => Value(bits[9 * k..9 * k + 9]))
  }

  lemma {:induction false} BytesAreBytes(bits: seq<bool>)
    requires |bits| % 8 == 0
    ensures AllBytes(Bytes(bits))
    decreases |bits|
  {
    if bits != [] {
      BytesAreBytes(bits[..|bits| - 8]);
      assert Pow2(8) == 256;
    }
  }

  lemma {:induction false} UnbytesBytes(bits: seq<bool>)
    requires |bits| % 8 == 0
    ensures AllBytes(Bytes(bits)) && Unbytes(Bytes(bits)) == bits
    decreases |bits|
  {
    BytesAreBytes(bits);
    if bits != [] {
      var init := bits[..|bits| - 8];
      var last := bits[|bits| - 8..];
      UnbytesBytes(init);
      var bs := Bytes(bits);
      assert bs[..|bs| - 1] == Bytes(init);
      ValueLsb(last);
      assert bits == init + last;
    }
  }

  lemma {:induction false} StreamSlice(codes: seq<int>, k: nat)
    requires NineBit(codes) && k < |codes|
    ensures Stream(codes)[9 * k..9 * k + 9] == Lsb(codes[k], 9)
    decreases |codes|
  {
    var init := codes[..|codes| - 1];
    if k < |codes| - 1 {
      StreamSlice(init, k);
      assert codes[k] == init[k];
    }
  }

  /** Every packed value is a byte. */
  lemma PackedBytes(codes: seq<int>)
    requires NineBit(codes)
    ensures AllBytes(Packed(codes))
  {
    BytesAreBytes(Padded(codes));
  }

  /** n codes pack into ⌈9n/8⌉ bytes. */
  lemma PackedLength(codes: seq<int>)
    requires NineBit(codes)
    ensures |Packed(codes)| == (9 * |codes| + 7) / 8
  {
  }

  /**
   * The bits of the packed bytes, each byte least significant bit first,
   * are the codes' bits, each code least significant bit first, followed by
   * zero padding; so a decoder reading 9-bit codes gets the codes back.
   */
  lemma PackedRoundTrip(codes: seq<int>)
    requires NineBit(codes)
    ensures AllBytes(Packed(codes))
    ensures Unbytes(Packed(codes)) == Padded(codes)
    ensures 9 * |codes| <= 8 * |Packed(codes)| && Unpack(Packed(codes), |codes|) == codes
  {
    UnbytesBytes(Padded(codes));
    var u := Unpack(Packed(codes), |codes|);
    forall k | 0 <= k < |codes|
      ensures u[k] == codes[k]
    {
      CodeRoundTrip(codes, k);
    }
  }

  lemma SliceOfPrefix<T>(a: seq<T>, b: seq<T>, i: nat, j: nat)
    requires i <= j <= |a|
    ensures (a + b)[i..j] == a[i..j]
  {
  }

  lemma CodeRoundTrip(codes: seq<int>, k: nat)
    requires NineBit(codes) && k < |codes|
    requires AllBytes(Packed(codes)) && Unbytes(Packed(codes)) == Padded(codes)
    ensures 9 * |codes| <= 8 * |Packed(codes)| && Unpack(Packed(codes), |codes|)[k] == codes[k]
  {
    var st := Stream(codes);
    StreamSlice(codes, k);
    SliceOfPrefix(st, seq(PadBits(|codes|), i => false), 9 * k, 9 * k + 9);
    LsbValue(codes[k], 9);
  }

  // ---------------------------------------------------------------------------
  // convert_little_endian_9bits

  /** The result strings read back as bits, each string last digit first. */
  function Flat(rs: seq<seq<bool>>): seq<bool>
  {
    if rs == [] then [] else Flat(rs[..|rs| - 1]) + Reverse(rs[|rs| - 1])
  }

  lemma FlatSnoc(rs: seq<seq<bool>>, x: seq<bool>)
    ensures Flat(rs + [x]) == Flat(rs) + Reverse(x)
  {
    assert (rs + [x])[..|rs|] == rs;
  }

  lemma {:induction false} FlatLength(rs: seq<seq<bool>>)
    requires forall i :: 0 <= i < |rs| ==> |rs[i]| == 8
    ensures |Flat(rs)| == 8 * |rs|
    decreases |rs|
  {
    if rs != [] {
      FlatLength(rs[..|rs| - 1]);
    }
  }

  /** `[int(s, base=2) for s in rs]` */
  function ParseAll(rs: seq<seq<bool>>): (r: seq<int>)
    ensures |r| == |rs|
  {
    if rs == [] then [] else ParseAll(rs[..|rs| - 1]) + [ParseBinary(rs[|rs| - 1])]
  }

  /** `int(s, base=2)` of each 8-digit string is the byte its bits make. */
  lemma {:induction false} BytesOfFlat(rs: seq<seq<bool>>)
    requires forall i :: 0 <= i < |rs| ==> |rs[i]| == 8
    ensures |Flat(rs)| % 8 == 0
    ensures Bytes(Flat(rs)) == ParseAll(rs)
    decreases |rs|
  {
    FlatLength(rs);
    if rs != [] {
      var init, x := rs[..|rs| - 1], rs[|rs| - 1];
      BytesOfFlat(init);
      FlatLength(init);
      ParseBinaryValue(x);
      BytesSnoc(Flat(init), Reverse(x));
    }
  }

  /** Eight more bits make one more byte. */
  lemma BytesSnoc(bits: seq<bool>, last: seq<bool>)
    requires |bits| % 8 == 0 && |last| == 8
    ensures Bytes(bits + last) == Bytes(bits) + [Value(last)]
  {
    var all := bits + last;
    assert all[..|all| - 8] == bits && all[|all| - 8..] == last;
  }

  /** One code of the loop: the new string and the new `left` carry the code's 9 bits after what came before. */
  lemma PackStep(codes: seq<int>, k: nat, result: seq<seq<bool>>, left: seq<bool>, b: seq<bool>, take: nat)
    requires NineBit(codes) && k < |codes| && b == ZFill(BinDigits(codes[k]), 9)
    requires take == 1 + |left| && |left| <= 7
    requires Flat(result) + Reverse(left) == Stream(codes[..k])
    ensures |b| == 9
    ensures Flat(result + [b[take..] + left]) + Reverse(b[..take]) == Stream(codes[..k + 1])
  {
    assert Pow2(9) == 512;
    ZFilledDigits(codes[k], 9);
    BinaryReversed(codes[k], 9);
    FlatSnoc(result, b[take..] + left);
    ReverseAppend(b[take..], left);
    assert b == b[..take] + b[take..];
    ReverseAppend(b[..take], b[take..]);
    assert codes[..k + 1][..k] == codes[..k];
  }

  /** The loop's invariant after `k` codes: whole 8-digit strings and the digits carried over spell their bits. */
  predicate PackInv(codes: seq<int>, k: nat, result: seq<seq<bool>>, left: seq<bool>)
    requires NineBit(codes) && k <= |codes|
  {
    && |left| <= 8
    && (forall i :: 0 <= i < |result| ==> |result[i]| == 8)
    && 8 * |result| + |left| == 9 * k
    && Flat(result) + Reverse(left) == Stream(codes[..k])
  }

  /** Eight carried digits become a whole string and nothing is carried. */
  lemma FlushKeeps(codes: seq<int>, k: nat, result: seq<seq<bool>>, left: seq<bool>)
    requires NineBit(codes) && k <= |codes| && PackInv(codes, k, result, left) && |left| == 8
    ensures PackInv(codes, k, result + [left], [])
  {
    FlatSnoc(result, left);
    assert Reverse(left) + Reverse<bool>([]) == Reverse(left);
  }

  /** One round of the loop keeps the invariant, one code further. */
  lemma PackRound(codes: seq<int>, k: nat, result: seq<seq<bool>>, left: seq<bool>, b: seq<bool>, take: nat)
    requires NineBit(codes) && k < |codes| && b == ZFill(BinDigits(codes[k]), 9)
    requires PackInv(codes, k, result, left) && |left| <= 7 && take == 1 + |left|
    ensures |b| == 9 && take <= |b|
    ensures PackInv(codes, k + 1, result + [b[take..] + left], b[..take])
  {
    PackStep(codes, k, result, left, b, take);
    var r := result + [b[take..] + left];
    forall i | 0 <= i < |r| ensures |r[i]| == 8 {
      if i < |result| {
        assert r[i] == result[i];
      }
    }
  }

  /** `left.zfill(8)` read back is `left` read back, then zero bits. */
  lemma ZFillReversed(left: seq<bool>)
    requires |left| <= 8
    ensures Reverse(ZFill(left, 8)) == Reverse(left) + seq(8 - |left|, i => false)
  {
    if |left| < 8 {
      ReverseAppend(seq(8 - |left|, i => false), left);
    }
  }

  /** The loop of `convert_little_endian_9bits`: 8-digit strings and the digits `left` over. */
  method PackStrings(codes: seq<int>) returns (result: seq<seq<bool>>, left: seq<bool>)
    requires NineBit(codes)
    ensures |left| <= 8
    ensures forall i :: 0 <= i < |result| ==> |result[i]| == 8
    ensures 8 * |result| + |left| == 9 * |codes|
    ensures Flat(result) + Reverse(left) == Stream(codes)
  {
    left := [];
    result := [];
    for k := 0 to |codes|
      invariant PackInv(codes, k, result, left)
    {
      var b := ZFill(BinDigits(codes[k]), 9);
      if |left| == 8 {
        FlushKeeps(codes, k, result, left);
        result := result + [left];
        left := [];
      }
      var take := 1 + |left|;
      PackRound(codes, k, result, left, b, take);
      result := result + [b[take..] + left];
      left := b[..take];
    }
    assert codes[..|codes|] == codes;
  }

  /** The last, zero-filled string completes the padded stream. */
  lemma PackFinish(codes: seq<int>, result: seq<seq<bool>>, left: seq<bool>)
    requires NineBit(codes) && |left| <= 8
    requires forall i :: 0 <= i < |result| ==> |result[i]| == 8
    requires 8 * |result| + |left| == 9 * |codes|
    requires Flat(result) + Reverse(left) == Stream(codes)
    ensures var final := if |left| > 0 then result + [ZFill(left, 8)] else result;
      (forall i :: 0 <= i < |final| ==> |final[i]| == 8) && Flat(final) == Padded(codes)
  {
    PadBitsLeft(|codes|, |result|, |left|);
    if |left| > 0 {
      FlatSnoc(result, ZFill(left, 8));
      ZFillReversed(left);
    } else {
      assert Reverse(left) == [];
    }
  }

  /** With `left` bits past whole bytes, the padding is what fills their byte. */
  lemma PadBitsLeft(n: nat, full: nat, left: nat)
    requires 8 * full + left == 9 * n && left <= 8
    ensures left > 0 ==> PadBits(n) == 8 - left
    ensures left == 0 ==> PadBits(n) == 0
  {
    if left == 8 {
      assert 9 * n == 8 * (full + 1);
    } else {
      assert (9 * n) % 8 == left;
    }
  }

  /** `convert_little_endian_9bits(codes)`: the codes, packed least significant bit first. */
  method ConvertLittleEndian9Bits(codes: seq<int>) returns (r: seq<int>)
    requires NineBit(codes)
    ensures r == Packed(codes)
  {
    var result, left := PackStrings(codes);
    PackFinish(codes, result, left);
    if |left| > 0 {
      result := result + [ZFill(left, 8)];
    }
    BytesOfFlat(result);
    r := ParseAll(result);
  }

  // ---------------------------------------------------------------------------
  // Data sub-blocks (GIF89a sections 15 and 16)

  function Min(a: int, b: int): int
  {
    if a <= b then a else b
  }

  /** The data in sub-blocks of at most 255 bytes, each after its length. */
  function SubBlocks(data: seq<int>): (r: seq<int>)
    decreases |data|
  {
    if data == [] then []
    else
      var n := Min(255, |data|);
      [n] + data[..n] + SubBlocks(data[n..])
  }

  /** `(len + 254) // 255`: the number of sub-blocks the writer emits. */
  function ChunkCount(n: nat): nat
  {
    (n + 254) / 255
  }

  /** `eight_bits[i * 255:(i + 1) * 255]`, which Python clamps to the data. */
  function Chunk(data: seq<int>, i: nat): seq<int>
  {
    data[Min(i * 255, |data|)..Min((i + 1) * 255, |data|)]
  }

  /** A decoder's reading of sub-blocks up to the zero-length block terminator: the data and what follows it. */
  function ReadBlocks(s: seq<int>): Option<(seq<int>, seq<int>)>
    decreases |s|
  {
    if s == [] then None
    else if s[0] == 0 then Some(([], s[1..]))
    else if s[0] < 0 || |s| < 1 + s[0] then None
    else
      var rest := ReadBlocks(s[1 + s[0]..]);
      if rest.None? then None else Some((s[1..1 + s[0]] + rest.value.0, rest.value.1))
  }

  lemma {:induction false} SubBlocksAppend(x: seq<int>, y: seq<int>)
    requires |x| % 255 == 0
    ensures SubBlocks(x + y) == SubBlocks(x) + SubBlocks(y)
    decreases |x|
  {
    if x != [] {
      assert (x + y)[..255] == x[..255];
      assert (x + y)[255..] == x[255..] + y;
      SubBlocksAppend(x[255..], y);
    } else {
      assert x + y == y;
    }
  }

  /** A last chunk of 1 to 255 bytes is one sub-block. */
  lemma OneBlock(y: seq<int>)
    requires 1 <= |y| <= 255
    ensures SubBlocks(y) == [|y|] + y
  {
    assert y[|y|..] == [];
  }

  /** Each sub-block costs one length byte: there are ⌈len/255⌉ of them. */
  lemma {:induction false} SubBlocksLength(data: seq<int>)
    ensures |SubBlocks(data)| == |data| + ChunkCount(|data|)
    decreases |data|
  {
    if data != [] {
      SubBlocksLength(data[Min(255, |data|)..]);
    }
  }

  /** Reading one sub-block of n bytes, then the rest. */
  lemma ReadOneBlock(n: int, chunk: seq<int>, rest: seq<int>)
    requires 1 <= n == |chunk|
    ensures ReadBlocks([n] + chunk + rest) ==
      if ReadBlocks(rest).None? then None else Some((chunk + ReadBlocks(rest).value.0, ReadBlocks(rest).value.1))
  {
    var s := [n] + chunk + rest;
    assert s[1 + n..] == rest;
    assert s[1..1 + n] == chunk;
  }

  /** A decoder reading the sub-blocks up to the terminator gets the data back, and then what follows. */
  lemma {:induction false} SubBlocksRoundTrip(data: seq<int>, tail: seq<int>)
    ensures ReadBlocks(SubBlocks(data) + [0] + tail) == Some((data, tail))
    decreases |data|
  {
    if data != [] {
      var n := Min(255, |data|);
      var head, rest := data[..n], data[n..];
      assert head + rest == data;
      var after := SubBlocks(rest) + [0] + tail;
      assert SubBlocks(data) + [0] + tail == [n] + head + after;
      SubBlocksRoundTrip(rest, tail);
      ReadOneBlock(n, head, after);
    } else {
      assert ([] + [0] + tail)[1..] == tail;
    }
  }

  lemma SubBlocksBytes(data: seq<int>)
    requires AllBytes(data)
    ensures AllBytes(SubBlocks(data))
    decreases |data|
  {
    if data != [] {
      var n := Min(255, |data|);
      SubBlocksBytes(data[n..]);
    }
  }

  // ---------------------------------------------------------------------------
  // encode_gif

  /** `n.bit_length()`: the number of binary digits of |n|. */
  function BitLength(n: int): nat
    decreases if n < 0 then -n else n, if n < 0 then 1 else 0
  {
    if n == 0 then 0 else if n < 0 then BitLength(-n) else 1 + BitLength(n / 2)
  }

  lemma {:induction false} BitLengthBound(n: nat, w: nat)
    ensures BitLength(n) <= w <==> n < Pow2(w)
    decreases w
  {
    if w > 0 && n > 0 {
      BitLengthBound(n / 2, w - 1);
    } else if w == 0 && n > 0 {
      assert BitLength(n) >= 1;
    }
  }

  /** `width.bit_length() > 16` holds exactly when |width| needs more than 16 bits. */
  lemma SixteenBits(n: int)
    ensures BitLength(n) <= 16 <==> -65536 < n < 65536
  {
    var m := if n < 0 then -n else n;
    BitLengthBound(m, 16);
    assert Pow2(4) == 16;
    assert Pow2(8) == 256;
    assert Pow2(12) == 4096;
    assert Pow2(16) == 65536;
    assert BitLength(n) == BitLength(m);
  }

  /** A palette entry `(r, g, b)`. */
  type Rgb = (int, int, int)

  /** The Global Color Table (GIF89a section 19): r, g, b of each entry, each `struct.pack('<B')`. */
  function PaletteBytes(palette: seq<Rgb>): (res: Result<seq<int>>)
    ensures res.Err? ==> res.error == StructError
    ensures res.Ok? ==> |res.value| == 3 * |palette|
  {
    if palette == [] then Ok([])
    else
      var before :- PaletteBytes(palette[..|palette| - 1]);
      var (r, g, b) := palette[|palette| - 1];
      var pr :- Pack(r, 1, false);
      var pg :- Pack(g, 1, false);
      var pb :- Pack(b, 1, false);
      Ok(before + pr + pg + pb)
  }

  predicate RgbBytes(c: Rgb)
  {
    IsByte(c.0) && IsByte(c.1) && IsByte(c.2)
  }

  /** The table is written exactly when every channel is a byte. */
  lemma {:induction false} PaletteOk(palette: seq<Rgb>)
    ensures PaletteBytes(palette).Ok? <==> forall k :: 0 <= k < |palette| ==> RgbBytes(palette[k])
    decreases |palette|
  {
    if palette != [] {
      var init := palette[..|palette| - 1];
      PaletteOk(init);
      if PaletteBytes(init).Err? {
        var k :| 0 <= k < |init| && !RgbBytes(init[k]);
        assert palette[k] == init[k];
      } else {
        assert forall k :: 0 <= k < |init| ==> init[k] == palette[k];
      }
    }
  }

  /** Entry k of the table is bytes 3k, 3k + 1 and 3k + 2, all of them bytes. */
  lemma {:induction false} PaletteLayout(palette: seq<Rgb>)
    requires PaletteBytes(palette).Ok?
    ensures AllBytes(PaletteBytes(palette).value)
    ensures forall k :: 0 <= k < |palette| ==>
      PaletteBytes(palette).value[3 * k..3 * k + 3] == [palette[k].0, palette[k].1, palette[k].2]
    decreases |palette|
  {
    if palette != [] {
      var init := palette[..|palette| - 1];
      PaletteLayout(init);
      var c := palette[|palette| - 1];
      var v := PaletteBytes(palette).value;
      var before := PaletteBytes(init).value;
      assert v == before + [c.0, c.1, c.2];
      forall k | 0 <= k < |palette|
        ensures v[3 * k..3 * k + 3] == [palette[k].0, palette[k].1, palette[k].2]
      {
        if k < |init| {
          assert v[3 * k..3 * k + 3] == before[3 * k..3 * k + 3];
          assert init[k] == palette[k];
        }
      }
    }
  }

  /** The Graphic Control Extension (GIF89a section 23). */
  function Gce(transparent: Option<int>): (res: Result<seq<int>>)
    ensures res.Err? ==> res.error == StructError
    ensures res.Ok? ==> |res.value| == 8 && AllBytes(res.value)
    ensures res.Ok? ==> res.value[3] == (if transparent.None? then 0 else 1)
    ensures res.Ok? && transparent.Some? ==> res.value[6] == transparent.value
  {
    var flag := if transparent.None? then 0 else 1;
    var index :- if transparent.None? then Ok([0]) else Pack(transparent.value, 1, false);
    Ok([0x21, 0xF9, 4, flag, 0, 0] + index + [0])
  }

  /** The Image Descriptor (GIF89a section 20): the image covers the screen from (0, 0). */
  function Descriptor(w: seq<int>, h: seq<int>): seq<int>
  {
    [0x2C, 0, 0, 0, 0] + w + h + [0]
  }

  /** The codes sent for the image: Clear, every index, End of Information. */
  function Codes(indices: seq<int>): seq<int>
  {
    [0x100] + indices + [0x101]
  }

  predicate IndicesFit(indices: seq<int>)
  {
    forall k :: 0 <= k < |indices| ==> 0 <= indices[k] < 512
  }

  lemma CodesNineBit(indices: seq<int>)
    requires IndicesFit(indices)
    ensures NineBit(Codes(indices)) && |Codes(indices)| == |indices| + 2
  {
    var codes := Codes(indices);
    forall k | 0 <= k < |codes|
      ensures 0 <= codes[k] < 512
    {
      if 0 < k < |codes| - 1 {
        assert codes[k] == indices[k - 1];
      }
    }
  }

  /** The Table-Based Image Data (GIF89a section 22): code size 8, the packed codes in sub-blocks, the terminator. */
  function ImageData(indices: seq<int>): seq<int>
    requires IndicesFit(indices)
  {
    CodesNineBit(indices);
    [8] + SubBlocks(Packed(Codes(indices))) + [0]
  }

  /** The checks `encode_gif` makes before writing anything. */
  predicate Acceptable(width: int, height: int, palette: seq<Rgb>, indices: seq<int>)
  {
    BitLength(width) <= 16 && BitLength(height) <= 16 && |palette| == 256 && |indices| == width * height
  }

  /** The signature and version, `b'GIF89a'`. */
  const Signature: seq<int> := [0x47, 0x49, 0x46, 0x38, 0x39, 0x61]

  /** The file `encode_gif` writes once every field has been packed. */
  function Layout(w: seq<int>, h: seq<int>, pal: seq<int>, gce: seq<int>, data: seq<int>): seq<int>
  {
    Signature + w + h + [0xF7, 0, 0] + pal + gce + Descriptor(w, h) + data + [0x3B]
  }

  /** What `encode_gif` writes, or the exception it raises. */
  function Encode(width: int, height: int, palette: seq<Rgb>, indices: seq<int>, transparent: Option<int>): (res: Result<seq<int>>)
    requires IndicesFit(indices)
  {
    if !Acceptable(width, height, palette, indices) then Err(ValueError)
    else
      var w :- Pack(width, 2, false);
      var h :- Pack(height, 2, false);
      var pal :- PaletteBytes(palette);
      var gce :- Gce(transparent);
      Ok(Layout(w, h, pal, gce, ImageData(indices)))
  }

  /** An image as a decoder sees it. */
  datatype Image = Image(width: int, height: int, palette: seq<Rgb>, indices: seq<int>, transparent: Option<int>)

  /** A decoder's reading of a file laid out as `encode_gif` lays it out. */
  function ReadGif(bs: seq<int>): Option<Image>
  {
    if |bs| < 800 || bs[..6] != Signature then None
    else
      var width := ReadLittle(bs[6..8]);
      var height := ReadLittle(bs[8..10]);
      var palette := seq(256, k requires 0 <= k < 256 => (bs[13 + 3 * k], bs[14 + 3 * k], bs[15 + 3 * k]));
      var transparent := if bs[784] == 1 then Some(bs[787]) else None;
      var blocks := ReadBlocks(bs[800..]);
      if blocks.None? || blocks.value.1 != [0x3B] then None
      else
        var data := blocks.value.0;
        var n := width * height + 2;
        if n < 2 || !AllBytes(data) || 9 * n > 8 * |data| then None
        else
          var codes := Unpack(data, n);
          if codes[0] != 0x100 || codes[n - 1] != 0x101 then None
          else Some(Image(width, height, palette, codes[1..n - 1], transparent))
  }

  // ---------------------------------------------------------------------------
  // What encode_gif promises

  /**
   * `encode_gif` raises `ValueError` before writing anything when a
   * dimension needs more than 16 bits, the palette does not have 256
   * entries or the indices do not cover width × height; past those checks
   * it raises `struct.error` exactly when a dimension is negative, a palette
   * channel is not a byte or the transparent index is not a byte.
   */
  lemma EncodeErrors(width: int, height: int, palette: seq<Rgb>, indices: seq<int>, transparent: Option<int>)
    requires IndicesFit(indices)
    ensures !Acceptable(width, height, palette, indices) ==> Encode(width, height, palette, indices, transparent) == Err(ValueError)
    ensures Acceptable(width, height, palette, indices) ==>
      (Encode(width, height, palette, indices, transparent).Err? <==>
        width < 0 || height < 0 || (exists k :: 0 <= k < |palette| && !RgbBytes(palette[k]))
        || (transparent.Some? && !IsByte(transparent.value)))
    ensures Acceptable(width, height, palette, indices) && Encode(width, height, palette, indices, transparent).Err? ==>
      Encode(width, height, palette, indices, transparent).error == StructError
  {
    Limits();
    SixteenBits(width);
    SixteenBits(height);
    PaletteOk(palette);
  }

  /** Once every field packs, the encoding is their layout. */
  lemma EncodeIsLayout(width: int, height: int, palette: seq<Rgb>, indices: seq<int>, transparent: Option<int>)
    requires IndicesFit(indices) && Acceptable(width, height, palette, indices)
    requires Pack(width, 2, false).Ok? && Pack(height, 2, false).Ok? && PaletteBytes(palette).Ok? && Gce(transparent).Ok?
    ensures Encode(width, height, palette, indices, transparent) == Ok(Layout(Pack(width, 2, false).value,
      Pack(height, 2, false).value, PaletteBytes(palette).value, Gce(transparent).value, ImageData(indices)))
  {
  }

  /** Where each part of a laid-out file lies. */
  lemma LayoutParts(w: seq<int>, h: seq<int>, pal: seq<int>, gce: seq<int>, data: seq<int>)
    requires |w| == 2 && |h| == 2 && |pal| == 768 && |gce| == 8
    ensures var v := Layout(w, h, pal, gce, data);
      |v| == 800 + |data| && v[..6] == Signature && v[6..8] == w && v[8..10] == h
      && v[10..13] == [0xF7, 0, 0] && v[13..781] == pal && v[781..789] == gce
      && v[789..799] == Descriptor(w, h) && v[799..] == data + [0x3B]
  {
    var v := Layout(w, h, pal, gce, data);
    var front := Signature + w + h + [0xF7, 0, 0];
    var mid := pal + gce + Descriptor(w, h);
    assert |front| == 13 && |mid| == 786;
    assert v == front + mid + (data + [0x3B]);
    assert v[..13] == front;
    assert v[13..799] == mid;
  }

  /** A successful encoding is the layout of the packed fields. */
  lemma EncodeOk(width: int, height: int, palette: seq<Rgb>, indices: seq<int>, transparent: Option<int>)
    requires IndicesFit(indices) && Encode(width, height, palette, indices, transparent).Ok?
    ensures Acceptable(width, height, palette, indices) && 0 <= width < 65536 && 0 <= height < 65536
    ensures PaletteBytes(palette).Ok? && Gce(transparent).Ok?
    ensures Encode(width, height, palette, indices, transparent).value
      == Layout(Little(width, 2), Little(height, 2), PaletteBytes(palette).value, Gce(transparent).value, ImageData(indices))
  {
    Limits();
  }

  /** The file is made of bytes. */
  lemma EncodeBytes(width: int, height: int, palette: seq<Rgb>, indices: seq<int>, transparent: Option<int>)
    requires IndicesFit(indices) && Encode(width, height, palette, indices, transparent).Ok?
    ensures AllBytes(Encode(width, height, palette, indices, transparent).value)
  {
    EncodeOk(width, height, palette, indices, transparent);
    var w, h := Little(width, 2), Little(height, 2);
    var pal, gce := PaletteBytes(palette).value, Gce(transparent).value;
    PaletteLayout(palette);
    var codes := Codes(indices);
    CodesNineBit(indices);
    PackedBytes(codes);
    SubBlocksBytes(Packed(codes));
    AllBytesAppend([8], SubBlocks(Packed(codes)));
    AllBytesAppend([8] + SubBlocks(Packed(codes)), [0]);
    assert AllBytes(ImageData(indices));
    LayoutBytes(w, h, pal, gce, ImageData(indices));
  }

  /** A layout of byte fields is made of bytes. */
  lemma LayoutBytes(w: seq<int>, h: seq<int>, pal: seq<int>, gce: seq<int>, data: seq<int>)
    requires AllBytes(w) && AllBytes(h) && AllBytes(pal) && AllBytes(gce) && AllBytes(data)
    ensures AllBytes(Layout(w, h, pal, gce, data))
  {
    var d := Descriptor(w, h);
    AllBytesAppend([0x2C, 0, 0, 0, 0], w);
    AllBytesAppend([0x2C, 0, 0, 0, 0] + w, h);
    AllBytesAppend([0x2C, 0, 0, 0, 0] + w + h, [0]);
    var parts := Signature + w;
    AllBytesAppend(Signature, w);
    AllBytesAppend(parts, h);
    AllBytesAppend(parts + h, [0xF7, 0, 0]);
    parts := parts + h + [0xF7, 0, 0];
    AllBytesAppend(parts, pal);
    AllBytesAppend(parts + pal, gce);
    AllBytesAppend(parts + pal + gce, d);
    parts := parts + pal + gce + d;
    AllBytesAppend(parts, data);
    AllBytesAppend(parts + data, [0x3B]);
  }

  /** A decoder reads back the dimensions, the palette, the transparent index and the indices that were encoded. */
  lemma EncodeReadBack(width: int, height: int, palette: seq<Rgb>, indices: seq<int>, transparent: Option<int>)
    requires IndicesFit(indices) && Encode(width, height, palette, indices, transparent).Ok?
    ensures ReadGif(Encode(width, height, palette, indices, transparent).value)
      == Some(Image(width, height, palette, indices, transparent))
  {
    EncodeOk(width, height, palette, indices, transparent);
    var w, h := Little(width, 2), Little(height, 2);
    var pal, gce := PaletteBytes(palette).value, Gce(transparent).value;
    CodesNineBit(indices);
    var packed := Packed(Codes(indices));
    var v := Encode(width, height, palette, indices, transparent).value;
    LayoutParts(w, h, pal, gce, ImageData(indices));
    assert v[799..] == [8] + SubBlocks(packed) + [0] + [0x3B];
    ReadLayout(v, w, h, pal, gce, packed);
    LittleRoundTrip(width, 2);
    LittleRoundTrip(height, 2);
    FieldsReadBack(width, height, palette, indices, transparent);
  }

  /** The fields `encode_gif` packs give back what was packed. */
  lemma FieldsReadBack(width: int, height: int, palette: seq<Rgb>, indices: seq<int>, transparent: Option<int>)
    requires IndicesFit(indices) && |palette| == 256 && 0 <= width && 0 <= height && |indices| == width * height
    requires PaletteBytes(palette).Ok? && Gce(transparent).Ok?
    ensures NineBit(Codes(indices))
    ensures ReadFields(width, height, PaletteBytes(palette).value, Gce(transparent).value, Packed(Codes(indices)))
      == Some(Image(width, height, palette, indices, transparent))
  {
    var codes := Codes(indices);
    CodesNineBit(indices);
    PaletteReadBack(palette);
    PackedRoundTrip(codes);
    PackedLength(codes);
    assert codes[1..|codes| - 1] == indices;
  }

  /** How a decoder reads a file with the fields where `encode_gif` puts them. */
  lemma ReadLayout(v: seq<int>, w: seq<int>, h: seq<int>, pal: seq<int>, gce: seq<int>, packed: seq<int>)
    requires |v| >= 800 && |pal| == 768 && |gce| == 8
    requires v[..6] == Signature && v[6..8] == w && v[8..10] == h && v[13..781] == pal && v[781..789] == gce
    requires v[799..] == [8] + SubBlocks(packed) + [0] + [0x3B]
    ensures ReadGif(v) == ReadFields(ReadLittle(w), ReadLittle(h), pal, gce, packed)
  {
    var rest := SubBlocks(packed) + [0] + [0x3B];
    assert v[799..] == [8] + rest;
    assert v[800..] == v[799..][1..] == rest;
    SubBlocksRoundTrip(packed, [0x3B]);
    assert v[784] == gce[3] && v[787] == gce[6];
    var fromFile := seq(256, k requires 0 <= k < 256 => (v[13 + 3 * k], v[14 + 3 * k], v[15 + 3 * k]));
    var fromFields := seq(256, k requires 0 <= k < 256 => (pal[3 * k], pal[3 * k + 1], pal[3 * k + 2]));
    forall k | 0 <= k < 256
      ensures fromFile[k] == fromFields[k]
    {
      assert v[13 + 3 * k] == pal[3 * k];
    }
    assert fromFile == fromFields;
    assert ReadBlocks(v[800..]) == Some((packed, [0x3B]));
  }

  /** ReadGif, given the fields a laid-out file holds. */
  function ReadFields(width: int, height: int, pal: seq<int>, gce: seq<int>, packed: seq<int>): Option<Image>
    requires |pal| == 768 && |gce| == 8
  {
    var palette := seq(256, k requires 0 <= k < 256 => (pal[3 * k], pal[3 * k + 1], pal[3 * k + 2]));
    var transparent := if gce[3] == 1 then Some(gce[6]) else None;
    var n := width * height + 2;
    if n < 2 || !AllBytes(packed) || 9 * n > 8 * |packed| then None
    else
      var codes := Unpack(packed, n);
      if codes[0] != 0x100 || codes[n - 1] != 0x101 then None
      else Some(Image(width, height, palette, codes[1..n - 1], transparent))
  }

  /** The palette triples come back out of the Global Color Table bytes. */
  lemma PaletteReadBack(palette: seq<Rgb>)
    requires |palette| == 256 && PaletteBytes(palette).Ok?
    ensures var pal := PaletteBytes(palette).value;
      seq(256, k requires 0 <= k < 256 => (pal[3 * k], pal[3 * k + 1], pal[3 * k + 2])) == palette
  {
    PaletteLayout(palette);
    var pal := PaletteBytes(palette).value;
    var read := seq(256, k requires 0 <= k < 256 => (pal[3 * k], pal[3 * k + 1], pal[3 * k + 2]));
    forall k | 0 <= k < 256
      ensures read[k] == palette[k]
    {
      assert pal[3 * k..3 * k + 3] == [palette[k].0, palette[k].1, palette[k].2];
      assert pal[3 * k] == pal[3 * k..3 * k + 3][0];
      assert pal[3 * k + 1] == pal[3 * k..3 * k + 3][1];
      assert pal[3 * k + 2] == pal[3 * k..3 * k + 3][2];
    }
  }

  // ---------------------------------------------------------------------------
  // The writer

  /** `struct.pack('<B', x)` of a byte is that byte. */
  lemma PackByte(x: int)
    requires IsByte(x)
    ensures Pack(x, 1, false) == Ok([x])
  {
    Limits();
    assert Little(x, 1) == [x % 256] + Little(x / 256, 0) == [x];
    assert Pack(x, 1, false) == Ok(Little(x, 1));
  }

  /** A table that packs, extended by an entry whose channels are bytes. */
  lemma PaletteStep(palette: seq<Rgb>, i: nat)
    requires i < |palette| && PaletteBytes(palette[..i]).Ok? && RgbBytes(palette[i])
    ensures PaletteBytes(palette[..i + 1]) == Ok(PaletteBytes(palette[..i]).value + [palette[i].0, palette[i].1, palette[i].2])
  {
    var init := palette[..i + 1];
    assert init[..|init| - 1] == palette[..i];
    assert init[|init| - 1] == palette[i];
    PackByte(palette[i].0);
    PackByte(palette[i].1);
    PackByte(palette[i].2);
    var before := PaletteBytes(palette[..i]).value;
    assert before + [palette[i].0] + [palette[i].1] + [palette[i].2] == before + [palette[i].0, palette[i].1, palette[i].2];
  }

  /** One Global Color Table entry: red, green and blue, each packed as one byte. */
  method WriteEntry(handle: Sink, c: Rgb) returns (r: Outcome)
    modifies handle
    ensures r.Pass? <==> RgbBytes(c)
    ensures r.Fail? ==> r.error == StructError
    ensures r.Pass? ==> handle.written == old(handle.written) + [c.0, c.1, c.2]
    ensures old(handle.written) <= handle.written
  {
    Limits();
    var (red, green, blue) := c;
    var pr := Pack(red, 1, false);
    if pr.Err? {
      return Fail(pr.error);
    }
    handle.Write(pr.value);
    var pg := Pack(green, 1, false);
    if pg.Err? {
      return Fail(pg.error);
    }
    handle.Write(pg.value);
    var pb := Pack(blue, 1, false);
    if pb.Err? {
      return Fail(pb.error);
    }
    handle.Write(pb.value);
    PackByte(red);
    PackByte(green);
    PackByte(blue);
    return Pass;
  }

  /** The Global Color Table loop of `encode_gif`. */
  method WritePalette(handle: Sink, palette: seq<Rgb>) returns (r: Outcome)
    modifies handle
    ensures r.Pass? <==> PaletteBytes(palette).Ok?
    ensures r.Fail? ==> r.error == StructError
    ensures r.Pass? ==> handle.written == old(handle.written) + PaletteBytes(palette).value
    ensures old(handle.written) <= handle.written
  {
    PaletteOk(palette);
    ghost var start := handle.written;
    for i := 0 to |palette|
      invariant PaletteBytes(palette[..i]).Ok?
      invariant handle.written == start + PaletteBytes(palette[..i]).value
    {
      ghost var before := handle.written;
      r := WriteEntry(handle, palette[i]);
      if r.Fail? {
        return;
      }
      PaletteStep(palette, i);
      AppendAssoc(start, PaletteBytes(palette[..i]).value, [palette[i].0, palette[i].1, palette[i].2]);
    }
    assert palette[..|palette|] == palette;
    return Pass;
  }

  /** The Graphic Control Extension writes of `encode_gif`. */
  method WriteGce(handle: Sink, transparent: Option<int>) returns (r: Outcome)
    modifies handle
    ensures r.Pass? <==> Gce(transparent).Ok?
    ensures r.Fail? ==> r.error == StructError
    ensures r.Pass? ==> handle.written == old(handle.written) + Gce(transparent).value
    ensures old(handle.written) <= handle.written
  {
    handle.Write([0x21, 0xF9]);
    handle.Write([4]);
    if transparent.None? {
      handle.Write([0]);
    } else {
      handle.Write([1]);
    }
    handle.Write([0, 0]);
    if transparent.None? {
      handle.Write([0]);
    } else {
      var index := Pack(transparent.value, 1, false);
      if index.Err? {
        return Fail(index.error);
      }
      handle.Write(index.value);
    }
    handle.Write([0]);
    return Pass;
  }

  /** The `nine_bits` list of `encode_gif`: Clear, every index, End of Information. */
  method NineBitCodes(indices: seq<int>) returns (nineBits: seq<int>)
    ensures nineBits == Codes(indices)
  {
    nineBits := [0x100];
    for i := 0 to |indices|
      invariant nineBits == [0x100] + indices[..i]
    {
      assert indices[..i + 1] == indices[..i] + [indices[i]];
      nineBits := nineBits + [indices[i]];
    }
    assert indices[..|indices|] == indices;
    nineBits := nineBits + [0x101];
  }

  /** The chunk loop of `encode_gif`: each run of up to 255 bytes, preceded by its length. */
  method WriteSubBlocks(handle: Sink, data: seq<int>)
    modifies handle
    ensures handle.written == old(handle.written) + SubBlocks(data)
  {
    ghost var start := handle.written;
    var n := |data|;
    var chunkCount := (n + 254) / 255;
    for i := 0 to chunkCount
      invariant handle.written == start + SubBlocks(data[..Min(i * 255, n)])
    {
      var chunk := data[i * 255..Min((i + 1) * 255, n)];
      WriteChunkStep(data, i);
      handle.Write([|chunk|]);
      handle.Write(chunk);
    }
    assert data[..Min(chunkCount * 255, n)] == data;
  }

  /** The image data writes of `encode_gif`: code size, the codes packed into sub-blocks, the terminator. */
  method WriteImageData(handle: Sink, indices: seq<int>)
    requires IndicesFit(indices)
    modifies handle
    ensures handle.written == old(handle.written) + ImageData(indices)
  {
    ghost var start := handle.written;
    handle.Write([8]);
    var nineBits := NineBitCodes(indices);
    CodesNineBit(indices);
    var eightBits := ConvertLittleEndian9Bits(nineBits);
    WriteSubBlocks(handle, eightBits);
    handle.Write([0]);
    ghost var blocks := SubBlocks(eightBits);
    assert handle.written == start + [8] + blocks + [0];
    AppendAssoc(start, [8], blocks);
    AppendAssoc(start, [8] + blocks, [0]);
    assert ImageData(indices) == [8] + blocks + [0];
  }

  /** Chunk i is one more sub-block after the chunks before it. */
  lemma WriteChunkStep(data: seq<int>, i: nat)
    requires i < (|data| + 254) / 255
    ensures i * 255 < |data|
    ensures SubBlocks(data[..Min((i + 1) * 255, |data|)]) ==
      SubBlocks(data[..Min(i * 255, |data|)]) + [|data[i * 255..Min((i + 1) * 255, |data|)]|]
        + data[i * 255..Min((i + 1) * 255, |data|)]
  {
    var chunk := data[i * 255..Min((i + 1) * 255, |data|)];
    var before := data[..i * 255];
    assert data[..Min((i + 1) * 255, |data|)] == before + chunk;
    assert |before| == i * 255;
    SubBlocksAppend(before, chunk);
    OneBlock(chunk);
  }

  /** The Image Descriptor writes of `encode_gif`. */
  method WriteDescriptor(handle: Sink, w: seq<int>, h: seq<int>)
    modifies handle
    ensures handle.written == old(handle.written) + Descriptor(w, h)
  {
    handle.Write([0x2C]);
    handle.Write([0, 0]);
    handle.Write([0, 0]);
    handle.Write(w);
    handle.Write(h);
    handle.Write([0]);
    assert [0x2C] + [0, 0] + [0, 0] == [0x2C, 0, 0, 0, 0];
  }

  /**
   * `encode_gif(handle, width, height, palette, indices, transparent_index)`:
   * writes exactly `Encode(...)` when that succeeds, nothing at all when
   * one of the checks fails, and only appends in any case.
   */
  method EncodeGif(handle: Sink, width: int, height: int, palette: seq<Rgb>, indices: seq<int>, transparent: Option<int>)
    returns (r: Outcome)
    requires IndicesFit(indices)
    modifies handle
    ensures r == if Encode(width, height, palette, indices, transparent).Ok? then Pass
      else Fail(Encode(width, height, palette, indices, transparent).error)
    ensures Encode(width, height, palette, indices, transparent).Ok? ==>
      handle.written == old(handle.written) + Encode(width, height, palette, indices, transparent).value
    ensures !Acceptable(width, height, palette, indices) ==> handle.written == old(handle.written)
    ensures old(handle.written) <= handle.written
  {
    if BitLength(width) > 16 {
      return Fail(ValueError);
    }
    if BitLength(height) > 16 {
      return Fail(ValueError);
    }
    if |palette| != 256 {
      return Fail(ValueError);
    }
    if |indices| != width * height {
      return Fail(ValueError);
    }
    r := WriteAccepted(handle, width, height, palette, indices, transparent);
  }

  /** How `Encode` fails, once the checks have passed, field by field. */
  lemma EncodeCases(width: int, height: int, palette: seq<Rgb>, indices: seq<int>, transparent: Option<int>)
    requires IndicesFit(indices) && Acceptable(width, height, palette, indices)
    ensures Pack(width, 2, false).Err? ==> Encode(width, height, palette, indices, transparent) == Err(StructError)
    ensures Pack(width, 2, false).Ok? && Pack(height, 2, false).Err? ==>
      Encode(width, height, palette, indices, transparent) == Err(StructError)
    ensures Pack(width, 2, false).Ok? && Pack(height, 2, false).Ok? && PaletteBytes(palette).Err? ==>
      Encode(width, height, palette, indices, transparent) == Err(StructError)
    ensures Pack(width, 2, false).Ok? && Pack(height, 2, false).Ok? && PaletteBytes(palette).Ok? && Gce(transparent).Err? ==>
      Encode(width, height, palette, indices, transparent) == Err(StructError)
  {
  }

  /** The header and Logical Screen Descriptor writes of `encode_gif`. */
  method WriteScreen(handle: Sink, width: int, height: int) returns (r: Outcome)
    modifies handle
    ensures r.Pass? <==> Pack(width, 2, false).Ok? && Pack(height, 2, false).Ok?
    ensures r.Fail? ==> r.error == StructError
    ensures r.Pass? ==>
      handle.written == old(handle.written) + (Signature + Pack(width, 2, false).value + Pack(height, 2, false).value + [0xF7, 0, 0])
    ensures old(handle.written) <= handle.written
  {
    handle.Write(Signature);
    var w := Pack(width, 2, false);
    if w.Err? {
      return Fail(w.error);
    }
    handle.Write(w.value);
    var h := Pack(height, 2, false);
    if h.Err? {
      return Fail(h.error);
    }
    handle.Write(h.value);
    handle.Write([0xF7]);
    handle.Write([0]);
    handle.Write([0]);
    return Pass;
  }

  /** Everything `encode_gif` writes once its checks have passed. */
  method WriteAccepted(handle: Sink, width: int, height: int, palette: seq<Rgb>, indices: seq<int>, transparent: Option<int>)
    returns (r: Outcome)
    requires IndicesFit(indices) && Acceptable(width, height, palette, indices)
    modifies handle
    ensures r == if Encode(width, height, palette, indices, transparent).Ok? then Pass
      else Fail(Encode(width, height, palette, indices, transparent).error)
    ensures Encode(width, height, palette, indices, transparent).Ok? ==>
      handle.written == old(handle.written) + Encode(width, height, palette, indices, transparent).value
    ensures old(handle.written) <= handle.written
  {
    EncodeCases(width, height, palette, indices, transparent);
    ghost var start := handle.written;
    r := WriteScreen(handle, width, height);
    if r.Fail? {
      return;
    }
    var w, h := Pack(width, 2, false).value, Pack(height, 2, false).value;
    ghost var expected := Signature + w + h + [0xF7, 0, 0];
    r := WritePalette(handle, palette);
    if r.Fail? {
      return;
    }
    AppendAssoc(start, expected, PaletteBytes(palette).value);
    expected := expected + PaletteBytes(palette).value;
    r := WriteGce(handle, transparent);
    if r.Fail? {
      return;
    }
    AppendAssoc(start, expected, Gce(transparent).value);
    expected := expected + Gce(transparent).value;
    WriteDescriptor(handle, w, h);
    AppendAssoc(start, expected, Descriptor(w, h));
    expected := expected + Descriptor(w, h);
    WriteImageData(handle, indices);
    AppendAssoc(start, expected, ImageData(indices));
    expected := expected + ImageData(indices);
    handle.Write([0x3B]);
    AppendAssoc(start, expected, [0x3B]);
    EncodeIsLayout(width, height, palette, indices, transparent);
  }
}
