/**
 * The byte streams the codec moves bodies through, and its two copy loops: one that fills a fixed
 * slice of an array from a stream and fails on a short read, and one that drains a stream into a
 * growing output buffer until end of input.
 */
module Transfer {
  import opened Outcomes
  import opened HttpMessage

  /** The codec's I/O buffer size. */
  const BUFFER_SIZE: nat := 8192

  function Min(a: int, b: int): int {
    if a < b then a else b
  }

  /**
   * An input stream over a fixed byte sequence (a resource's stream, a byte-array stream, the
   * parser's session buffer). One read delivers at most `chunk` bytes, which stands for however
   * much the underlying source happens to have ready.
   */
  class InputStream {
    const data: seq<Byte>
    const chunk: nat
    var pos: nat

    ghost predicate Valid()
      reads this
    {
      pos <= |data| && chunk > 0
    }

    /** The bytes not yet read. */
    function Remaining(): seq<Byte>
      reads this
      requires Valid()
    {
      data[pos..]
    }

    constructor (data: seq<Byte>, chunk: nat)
      requires chunk > 0
      ensures Valid() && this.data == data && this.chunk == chunk && pos == 0
    {
      this.data := data;
      this.chunk := chunk;
      pos := 0;
    }

    /**
     * InputStream.read(b, off, len): 0 when len is 0; -1 at end of input; otherwise between 1
     * and len bytes, the next ones of the stream, stored at b[off..], with the rest of b untouched.
     */
    method Read(dest: array<Byte>, off: nat, len: nat) returns (n: int)
      requires Valid()
      requires off + len <= dest.Length
      modifies this, dest
      ensures Valid()
      ensures len == 0 ==> n == 0
      ensures len > 0 && old(Remaining()) == [] ==> n == -1
      ensures len > 0 && old(Remaining()) != [] ==> 1 <= n <= len
      ensures n <= |old(Remaining())|
      ensures n < 0 ==> pos == old(pos)
      ensures n >= 0 ==> pos == old(pos) + n && dest[off..off + n] == old(Remaining())[..n]
      ensures forall k :: 0 <= k < dest.Length && !(off <= k < off + n) ==> dest[k] == old(dest[k])
    {
      if len == 0 {
        return 0;
      }
      if pos == |data| {
        return -1;
      }
      n := Min(Min(len, chunk), |data| - pos);
      forall k | 0 <= k < n {
        dest[off + k] := data[pos + k];
      }
      pos := pos + n;
    }
  }

  /** A ByteArrayOutputStream: the bytes written so far. */
  class ByteArrayOutputStream {
    var bytes: seq<Byte>

    constructor ()
      ensures bytes == []
    {
      bytes := [];
    }

    /** write(b, off, len): appends b[off..off+len]. */
    method Write(b: array<Byte>, off: nat, len: nat)
      requires off + len <= b.Length
      modifies this
      ensures bytes == old(bytes) + b[off..off + len]
    {
      bytes := bytes + b[off..off + len];
    }
  }

  /**
   * copyBytes(src, dest, destPos, length): reads until `length` bytes have arrived in
   * dest[destPos..destPos + length], and fails naming both counts when the stream ends first.
   * The stream may be absent only when nothing is to be copied.
   */
  method CopyBytes(src: InputStream?, dest: array<Byte>, destPos: nat, length: nat) returns (r: Result<()>)
    requires length > 0 ==> src != null && src.Valid()
    requires destPos + length <= dest.Length
    modifies src, dest
    ensures src != null && length > 0 ==> src.Valid()
    ensures r.Success? <==> length == 0 || |old(src.Remaining())| >= length
    ensures r.Success? ==> dest[destPos..destPos + length] == if length == 0 then [] else old(src.Remaining())[..length]
    ensures r.Success? && length > 0 ==> src.pos == old(src.pos) + length
    ensures r.Failure? ==>
      r.error == ShortRead(length, |old(src.Remaining())|) &&
      dest[destPos..destPos + |old(src.Remaining())|] == old(src.Remaining()) &&
      src.Remaining() == []
    ensures forall k :: 0 <= k < dest.Length && !(destPos <= k < destPos + length) ==> dest[k] == old(dest[k])
  {
    if length == 0 {
      return Success(());
    }
    ghost var input := src.Remaining();
    var totalBytesRead := 0;
    while totalBytesRead < length
      invariant totalBytesRead <= length && totalBytesRead <= |input|
      invariant src.Valid() && src.pos == old(src.pos) + totalBytesRead
      invariant src.Remaining() == input[totalBytesRead..]
      invariant forall j :: destPos <= j < destPos + totalBytesRead ==> dest[j] == input[j - destPos]
      invariant forall k :: 0 <= k < dest.Length && !(destPos <= k < destPos + totalBytesRead) ==> dest[k] == old(dest[k])
      decreases length - totalBytesRead
    {
      var lastBytesRead := src.Read(dest, destPos + totalBytesRead, length - totalBytesRead);
      if lastBytesRead == -1 {
        break;
      }
      assert forall j :: destPos + totalBytesRead <= j < destPos + totalBytesRead + lastBytesRead ==>
        dest[j] == input[j - destPos] by {
        assert forall j :: destPos + totalBytesRead <= j < destPos + totalBytesRead + lastBytesRead ==>
          dest[j] == dest[destPos + totalBytesRead..][j - destPos - totalBytesRead];
      }
      totalBytesRead := totalBytesRead + lastBytesRead;
    }
    assert dest[destPos..destPos + totalBytesRead] == input[..totalBytesRead];
    if totalBytesRead < length {
      return Failure(ShortRead(length, totalBytesRead));
    }
    return Success(());
  }

  /** copyBytes(src, dest): moves everything left in the stream to the output, a buffer at a time. */
  method CopyAll(src: InputStream, dest: ByteArrayOutputStream)
    requires src.Valid()
    modifies src, dest
    ensures src.Valid() && src.Remaining() == []
    ensures dest.bytes == old(dest.bytes) + old(src.Remaining())
  {
    var buf := new Byte[BUFFER_SIZE];
    ghost var input := src.Remaining();
    while true
      invariant src.Valid()
      invariant dest.bytes == old(dest.bytes) + input[..|input| - |src.Remaining()|]
      invariant |src.Remaining()| <= |input| && src.Remaining() == input[|input| - |src.Remaining()|..]
      decreases |src.Remaining()|
    {
      var lastBytesRead := src.Read(buf, 0, buf.Length);
      if lastBytesRead == -1 {
        break;
      }
      dest.Write(buf, 0, lastBytesRead);
    }
  }
}
