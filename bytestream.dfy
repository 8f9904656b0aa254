/**
 * The byte-level helpers the image writers share: Python's `struct.pack`
 * for the unsigned formats `B`, `H` and `I` in either byte order, the
 * readers that undo it, ASCII literals such as `b'GIF89a'`, and the binary
 * file handle or `BytesIO` the writers append to.
 */
module ByteStream {
  import opened Wrappers
  import opened PyInt

  predicate IsByte(x: int)
  {
    0 <= x < 256
  }

  predicate AllBytes(s: seq<int>)
  {
    forall i :: 0 <= i < |s| ==> IsByte(s[i])
  }

  lemma AllBytesAppend(a: seq<int>, b: seq<int>)
    ensures AllBytes(a + b) <==> AllBytes(a) && AllBytes(b)
  {
    if AllBytes(a) && AllBytes(b) {
      forall i | 0 <= i < |a + b|
        ensures IsByte((a + b)[i])
      {
        if i >= |a| {
          assert (a + b)[i] == b[i - |a|];
        }
      }
    }
    if AllBytes(a + b) {
      forall i | 0 <= i < |a|
        ensures IsByte(a[i])
      {
        assert (a + b)[i] == a[i];
      }
      forall i | 0 <= i < |b|
        ensures IsByte(b[i])
      {
        assert (a + b)[|a| + i] == b[i];
      }
    }
  }

  /** 256 to the power `size`: the first value a field of `size` bytes cannot hold. */
  function Limit(size: nat): (p: int)
    ensures p >= 1
  {
    if size == 0 then 1 else 256 * Limit(size - 1)
  }

  /** The field sizes of `struct` formats `B`, `H` and `I`. */
  lemma Limits()
    ensures Limit(1) == 256 && Limit(2) == 0x1_0000 && Limit(4) == 0x1_0000_0000
  {
  }

  /** The low `size` bytes of `n`, least significant first. */
  function Little(n: int, size: nat): (r: seq<int>)
    ensures |r| == size && AllBytes(r)
    decreases size
  {
    if size == 0 then [] else [n % 256] + Little(n / 256, size - 1)
  }

  /** The low `size` bytes of `n`, most significant first. */
  function Big(n: int, size: nat): (r: seq<int>)
    ensures |r| == size && AllBytes(r)
    decreases size
  {
    if size == 0 then [] else Big(n / 256, size - 1) + [n % 256]
  }

  /** The unsigned number stored least significant byte first. */
  function ReadLittle(s: seq<int>): int
  {
    if s == [] then 0 else s[0] + 256 * ReadLittle(s[1..])
  }

  /** The unsigned number stored most significant byte first. */
  function ReadBig(s: seq<int>): int
  {
    if s == [] then 0 else 256 * ReadBig(s[..|s| - 1]) + s[|s| - 1]
  }

  lemma QuotientBelow(n: int, size: nat)
    requires size >= 1 && 0 <= n < Limit(size)
    ensures 0 <= n / 256 < Limit(size - 1)
  {
    MulStrictMono(256, n / 256, Limit(size - 1));
  }

  lemma {:induction false} LittleRoundTrip(n: int, size: nat)
    requires 0 <= n < Limit(size)
    ensures ReadLittle(Little(n, size)) == n
    decreases size
  {
    if size > 0 {
      QuotientBelow(n, size);
      LittleRoundTrip(n / 256, size - 1);
      assert Little(n, size)[1..] == Little(n / 256, size - 1);
    }
  }

  lemma {:induction false} BigRoundTrip(n: int, size: nat)
    requires 0 <= n < Limit(size)
    ensures ReadBig(Big(n, size)) == n
    decreases size
  {
    if size > 0 {
      QuotientBelow(n, size);
      BigRoundTrip(n / 256, size - 1);
      assert Big(n, size)[..size - 1] == Big(n / 256, size - 1);
    }
  }

  /**
   * `struct.pack(fmt, n)` for an unsigned format of `size` bytes (`B` 1,
   * `H` 2, `I` 4), big-endian for `>` and little-endian for `<`: the bytes
   * that read back as `n`, or `struct.error` when the field cannot hold `n`.
   */
  function Pack(n: int, size: nat, bigEndian: bool): (r: Result<seq<int>>)
    ensures r.Ok? <==> 0 <= n < Limit(size)
    ensures r.Err? ==> r.error == StructError
    ensures r.Ok? ==> |r.value| == size && AllBytes(r.value)
    ensures r.Ok? ==> (if bigEndian then ReadBig(r.value) else ReadLittle(r.value)) == n
  {
    if 0 <= n < Limit(size) then
      if bigEndian then BigRoundTrip(n, size); Ok(Big(n, size))
      else LittleRoundTrip(n, size); Ok(Little(n, size))
    else Err(StructError)
  }

  lemma MulSucc(a: nat, c: nat)
    ensures (a + 1) * c == a * c + c
  {
  }

  lemma AppendAssoc(a: seq<int>, b: seq<int>, c: seq<int>)
    ensures a + b + c == a + (b + c)
  {
  }

  /** A `bytes` literal of ASCII characters. */
  function Ascii(s: string): (r: seq<int>)
    ensures |r| == |s| && forall i :: 0 <= i < |s| ==> r[i] == s[i] as int
  {
    seq(|s|, i requires 0 <= i < |s| => s[i] as int)
  }

  /** `bytes(n)`: n zero bytes. */
  function Zeros(n: nat): (r: seq<int>)
    ensures |r| == n && forall i :: 0 <= i < n ==> r[i] == 0
  {
    seq(n, i => 0)
  }

  /** A binary file opened for writing, or a `BytesIO`: what has been written so far. */
  class Sink {
    var written: seq<int>

    constructor ()
      ensures written == []
    {
      written := [];
    }

    /** `handle.write(bs)` */
    method Write(bs: seq<int>)
      modifies this
      ensures written == old(written) + bs
    {
      written := written + bs;
    }
  }
}
