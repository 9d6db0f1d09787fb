/** The reusable LZO compression and decompression helpers. The LZO routines
    themselves are an oracle: a `Codec` value supplies what `lzo1x_1_compress`
    writes for an input and what `lzo1x_decompress_safe` reports for an input
    and an output capacity. */
module Compression {
  import opened Basics

  /** `LZO_E_OK`. */
  const LZO_E_OK: int := 0

  /** What `lzo1x_decompress_safe` reports: its return code and the bytes it
      wrote into the output buffer (`*dst_len` of them). */
  datatype Inflated = Inflated(code: int, bytes: Bytes)

  datatype Codec = Codec(compress: Bytes -> Bytes, decompress: (Bytes, nat) -> Inflated) {
    /** The guarantees of the LZO library the helpers rely on: compressed output
        never exceeds the worst-case bound, and the safe decompressor never writes
        beyond the capacity it is given. */
    ghost predicate Valid() {
      && (forall d :: |compress(d)| <= WorstCase(|d|))
      && (forall d, capacity :: |decompress(d, capacity).bytes| <= capacity)
    }
  }

  /** The LZO worst-case expansion of an input of `n` bytes (`lzo_uint` is as
      wide as `size_t`; the model does not wrap it): room for the whole input
      and at least 67 bytes more, the excess growing by at most one byte per
      16 input bytes. */
  function WorstCase(n: nat): (bound: nat)
    ensures n + 67 <= bound
    ensures 16 * (bound - n - 67) <= n
  {
    n + (n / 16) + 64 + 3
  }

  /** A buffer after `realloc` to `n` bytes when `n` exceeds its length: the old
      contents stay in front. The new bytes are indeterminate in C; here they are
      zero. */
  function Grown(buffer: Bytes, n: nat): (r: Bytes)
    ensures |r| == Max(|buffer|, n)
    ensures r[..|buffer|] == buffer
  {
    if n > |buffer| then buffer + seq(n - |buffer|, _ => 0) else buffer
  }

  /** A buffer whose front has been overwritten with `out`. */
  function Overwritten(buffer: Bytes, out: Bytes): (r: Bytes)
    requires |out| <= |buffer|
    ensures |r| == |buffer| && r[..|out|] == out
  {
    out + buffer[|out|..]
  }

  /** `compressor<lzo>`: a growable output buffer (`m_buffer`, of
      `m_buffer_length` bytes) and the length of the last result. */
  class Compressor {
    var buffer: Bytes
    var bufferLength: nat
    var resultLength: nat

    ghost predicate Valid()
      reads this
    {
      |buffer| == bufferLength && resultLength <= bufferLength
    }

    constructor()
      ensures Valid() && bufferLength == 0 && resultLength == 0 && buffer == []
    {
      buffer, bufferLength, resultLength := [], 0, 0;
    }

    /** `operator()(data, data_length)`: grows the buffer to the worst case if
        needed, compresses into it, and reports whether the result is strictly
        smaller than the input. */
    method Compress(data: Bytes, codec: Codec) returns (shrunk: bool)
      requires Valid() && codec.Valid()
      modifies this
      ensures Valid()
      ensures bufferLength == Max(old(bufferLength), WorstCase(|data|))
      ensures resultLength == |codec.compress(data)|
      ensures Data()[..Length()] == codec.compress(data)
      ensures shrunk <==> Length() < |data|
    {
      var expansion := WorstCase(|data|);
      if expansion > bufferLength {
        bufferLength := expansion;
        buffer := Grown(buffer, bufferLength);
      }
      var out := codec.compress(data);
      buffer := Overwritten(buffer, out);
      resultLength := |out|;
      shrunk := resultLength < |data|;
    }

    /** `data()`: the buffer. */
    function Data(): (d: Bytes)
      reads this
      requires Valid()
      ensures |d| == bufferLength
    {
      buffer
    }

    /** `length()`: the length of the last result. */
    function Length(): (n: nat)
      reads this
      requires Valid()
      ensures n <= |Data()|
    {
      resultLength
    }
  }

  /** `decompressor<lzo>`: the same buffer management for inflating. */
  class Decompressor {
    var buffer: Bytes
    var bufferLength: nat
    var resultLength: nat

    ghost predicate Valid()
      reads this
    {
      |buffer| == bufferLength && resultLength <= bufferLength
    }

    constructor()
      ensures Valid() && bufferLength == 0 && resultLength == 0 && buffer == []
    {
      buffer, bufferLength, resultLength := [], 0, 0;
    }

    /** `operator()(data, data_length, expansion_length)`: grows the buffer to
        `expansionLength` if needed, offers all of it as output capacity, and
        reports whether the decompressor returned `LZO_E_OK`. */
    method Decompress(data: Bytes, expansionLength: nat, codec: Codec) returns (ok: bool)
      requires Valid() && codec.Valid()
      modifies this
      ensures Valid()
      ensures bufferLength == Max(old(bufferLength), expansionLength)
      ensures var out := codec.decompress(data, bufferLength);
              && resultLength == |out.bytes|
              && Data()[..Length()] == out.bytes
              && (ok <==> out.code == LZO_E_OK)
    {
      if expansionLength > bufferLength {
        bufferLength := expansionLength;
        buffer := Grown(buffer, bufferLength);
      }
      resultLength := bufferLength;
      var out := codec.decompress(data, resultLength);
      buffer := Overwritten(buffer, out.bytes);
      resultLength := |out.bytes|;
      ok := out.code == LZO_E_OK;
    }

    function Data(): (d: Bytes)
      reads this
      requires Valid()
      ensures |d| == bufferLength
    {
      buffer
    }

    function Length(): (n: nat)
      reads this
      requires Valid()
      ensures n <= |Data()|
    {
      resultLength
    }
  }
}
