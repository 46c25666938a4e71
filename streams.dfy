/** The byte streams the source reads from: `std::io::Cursor` over a byte
    buffer, the fixed-size reads built on it, `copy_exact`, and the two bzip2
    block readers with the decoder itself left abstract. */
module Streams {
  import opened Types
  import opened Integers

  /** A read cursor over an in-memory buffer, as `std::io::Cursor<&[u8]>`.
      The position is a `u64` and may lie past the end of the buffer (a seek
      there is allowed); reading at or past the end yields no bytes. */
  class Cursor {
    const data: seq<byte>
    var pos: nat

    constructor (data: seq<byte>)
      ensures this.data == data && pos == 0
    {
      this.data := data;
      pos := 0;
    }

    /** The bytes a read would see next. */
    function Remaining(): seq<byte>
      reads this
    {
      if pos <= |data| then data[pos..] else []
    }

    /** `self.take(n)` drained to its end (what `io::copy` does with it): the
        next min(n, remaining) bytes, with the position moved past them. */
    method ReadUpTo(n: nat) returns (chunk: seq<byte>)
      modifies this
      ensures chunk == old(Remaining())[..Min(n, |old(Remaining())|)]
      ensures pos == old(pos) + |chunk|
      ensures Remaining() == old(Remaining())[|chunk|..]
    {
      var rest := Remaining();
      chunk := rest[..Min(n, |rest|)];
      pos := pos + |chunk|;
    }

    /** `seek(SeekFrom::Current(offset))`: moves the position by offset, or
        fails and leaves it where it was when the result would be negative or
        above `u64::MAX` (`u64::checked_add_signed`). */
    method Seek(offset: int) returns (ok: bool)
      modifies this
      ensures ok <==> 0 <= old(pos) + offset <= U64_MAX
      ensures pos == if ok then old(pos) + offset else old(pos)
    {
      ok := 0 <= pos + offset <= U64_MAX;
      if ok {
        pos := pos + offset;
      }
    }
  }

  /** `Read::read_exact` on a cursor: exactly n bytes, or `UnexpectedEof`
      when fewer remain. */
  method ReadExact(r: Cursor, n: nat) returns (res: Result<seq<byte>>)
    modifies r
    ensures var rest := old(r.Remaining());
      res == if n <= |rest| then Ok(rest[..n]) else Err(UnexpectedEof)
    ensures r.Remaining() == old(r.Remaining())[Min(n, |old(r.Remaining())|)..]
  {
    var bytes := r.ReadUpTo(n);
    if |bytes| < n {
      return Err(UnexpectedEof);
    }
    return Ok(bytes);
  }

  /** `copy_exact(reader, writer, amount)`: moves up to amount bytes from the
      reader to the writer and succeeds only if exactly amount were moved.
      `written` is what reached the writer; nothing is silently truncated. */
  method CopyExact(reader: Cursor, amount: nat) returns (written: seq<byte>, ok: bool)
    modifies reader
    ensures written == old(reader.Remaining())[..Min(amount, |old(reader.Remaining())|)]
    ensures ok <==> amount <= |old(reader.Remaining())|
    ensures ok ==> written == old(reader.Remaining())[..amount]
    ensures reader.pos == old(reader.pos) + |written|
    ensures reader.Remaining() == old(reader.Remaining())[|written|..]
  {
    written := reader.ReadUpTo(amount);
    var bytesWritten := |written|;
    ok := bytesWritten == amount;
  }

  /** `read_i64::<LE>`: 8 bytes as a little-endian two's-complement `i64`. */
  method ReadI64Le(r: Cursor) returns (res: Result<Int64>)
    modifies r
    ensures var rest := old(r.Remaining());
      res == if 8 <= |rest| then Ok(LeI64(rest[..8])) else Err(UnexpectedEof)
    ensures r.Remaining() == old(r.Remaining())[Min(8, |old(r.Remaining())|)..]
  {
    var bytes :- ReadExact(r, 8);
    return Ok(LeI64(bytes));
  }

  /** `read_positive_le_i64`: an `i64` field that must not be negative. */
  method ReadPositiveLeI64(r: Cursor) returns (res: Result<Length>)
    modifies r
    ensures var rest := old(r.Remaining());
      res == if 8 <= |rest| then PositiveLeI64(rest[..8]) else Err(UnexpectedEof)
    ensures r.Remaining() == old(r.Remaining())[Min(8, |old(r.Remaining())|)..]
  {
    var n :- ReadI64Le(r);
    res := TryFromI64(n);
  }

  /** `read_ones_complement_le_i64`: an `i64` field in sign-magnitude form. */
  method ReadOnesComplementLeI64(r: Cursor) returns (res: Result<Int64>)
    modifies r
    ensures var rest := old(r.Remaining());
      res == if 8 <= |rest| then Ok(OnesComplementLeI64(rest[..8])) else Err(UnexpectedEof)
    ensures r.Remaining() == old(r.Remaining())[Min(8, |old(r.Remaining())|)..]
  {
    var n :- ReadI64Le(r);
    return Ok(OnesComplement(n));
  }

  /** A bzip2 decoder that decodes a whole compressed byte string, or fails.
      It is a parameter of the model: the `bzip2` crate is not part of it. */
  type Decompressor = seq<byte> -> Option<seq<byte>>

  /** `BzDecoder::new(..).read_to_end(..)` over exactly the given bytes. */
  function Decompress(bz: Decompressor, compressed: seq<byte>): (r: Result<seq<byte>>)
    ensures r.Ok? <==> bz(compressed).Some?
    ensures r.Ok? ==> r.value == bz(compressed).value
    ensures r.Err? ==> r.error == CorruptBlock
  {
    match bz(compressed)
    case Some(block) => Ok(block)
    case None => Err(CorruptBlock)
  }

  /** `read_bzip_block(r, len)`: decodes the next len compressed bytes (fewer if
      the stream ends first) and leaves the reader just past them. */
  method ReadBzipBlock(r: Cursor, bz: Decompressor, len: nat) returns (res: Result<seq<byte>>)
    modifies r
    ensures var rest := old(r.Remaining());
      res == Decompress(bz, rest[..Min(len, |rest|)])
    ensures r.Remaining() == old(r.Remaining())[Min(len, |old(r.Remaining())|)..]
  {
    var window := r.ReadUpTo(len);
    res := Decompress(bz, window);
  }

  /** `read_bzip_to_end(r)`: decodes everything left in the reader. */
  method ReadBzipToEnd(r: Cursor, bz: Decompressor) returns (res: Result<seq<byte>>)
    modifies r
    ensures res == Decompress(bz, old(r.Remaining()))
    ensures r.Remaining() == []
  {
    var rest := r.Remaining();
    var window := r.ReadUpTo(|rest|);
    assert window == rest;
    res := Decompress(bz, window);
  }
}
