/**
 * Bytes, the values written on a socket with DataOutputStream, and the
 * specification of the "read at most `size` bytes in buffer-sized chunks"
 * loops that the coordinator and the storage node share.
 */
module Streams {

  newtype byte = b: int | 0 <= b < 256

  /** A strictly positive size, such as BUFFER_SIZE once the configuration is loaded. */
  type Positive = n: int | n > 0 witness 1

  /**
   * One value written on a connection: writeBoolean, writeInt, writeLong,
   * writeUTF, or `write(buffer, 0, n)` of raw bytes.
   */
  datatype Token = Bool(b: bool) | Int(i: int) | Long(l: int) | Utf(s: string) | Raw(data: seq<byte>)

  function Min(a: int, b: int): int {
    if a <= b then a else b
  }

  /**
   * What a reader that wants `size` bytes obtains from `input` before the end
   * of the stream: nothing for a size up to zero, otherwise the first
   * min(size, |input|) bytes.
   */
  function Prefix(input: seq<byte>, size: int): (r: seq<byte>)
    ensures |r| == if size <= 0 then 0 else Min(size, |input|)
    ensures r == input[..|r|]
  {
    if size <= 0 then [] else input[..Min(size, |input|)]
  }

  /** The bytes carried by the raw writes among `tokens`, in order. */
  function RawBytes(tokens: seq<Token>): seq<byte> {
    if tokens == [] then []
    else
      var last := tokens[|tokens| - 1];
      RawBytes(tokens[..|tokens| - 1]) + (if last.Raw? then last.data else [])
  }

  /** Raw bytes of consecutive writes are the concatenation of their raw bytes. */
  lemma {:induction false} RawBytesConcat(a: seq<Token>, b: seq<Token>)
    ensures RawBytes(a + b) == RawBytes(a) + RawBytes(b)
    decreases |b|
  {
    if b != [] {
      var b' := b[..|b| - 1];
      assert (a + b)[..|a + b| - 1] == a + b';
      RawBytesConcat(a, b');
    } else {
      assert a + b == a;
    }
  }

  /** Bytes already forwarded, then two runs of writes. */
  lemma ForwardedConcat(forwarded: seq<byte>, a: seq<Token>, b: seq<Token>)
    ensures forwarded + RawBytes(a) + RawBytes(b) == forwarded + RawBytes(a + b)
  {
    RawBytesConcat(a, b);
  }

  /** Every token is a raw write of at least one and at most `limit` bytes. */
  predicate RawChunks(tokens: seq<Token>, limit: int) {
    forall i :: 0 <= i < |tokens| ==> tokens[i].Raw? && 0 < |tokens[i].data| <= limit
  }

  lemma RawChunksConcat(a: seq<Token>, b: seq<Token>, limit: int)
    requires RawChunks(a, limit) && RawChunks(b, limit)
    ensures RawChunks(a + b, limit)
  {
    forall i | 0 <= i < |a + b|
      ensures (a + b)[i].Raw? && 0 < |(a + b)[i].data| <= limit
    {
      if i < |a| {
        assert (a + b)[i] == a[i];
      } else {
        assert (a + b)[i] == b[i - |a|];
      }
    }
  }

  /** One writeUTF per name. */
  function UtfTokens(names: seq<string>): (r: seq<Token>)
    ensures |r| == |names| && forall i :: 0 <= i < |names| ==> r[i] == Utf(names[i])
  {
    if names == [] then [] else UtfTokens(names[..|names| - 1]) + [Utf(names[|names| - 1])]
  }

  /**
   * `read(buffer, 0, want)` at position `pos` of `input`: -1 at the end of
   * the stream, otherwise the number of bytes delivered, here all that are
   * available up to `want`.
   */
  function ReadCount(input: seq<byte>, pos: nat, want: int): (r: int)
    requires pos <= |input| && want > 0
    ensures r == -1 <==> pos == |input|
    ensures r != -1 ==> 0 < r <= want && pos + r <= |input|
  {
    if pos == |input| then -1 else Min(want, |input| - pos)
  }
}
