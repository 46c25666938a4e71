/** The bsdiff4 patch container (`Bsdiff4` and `Bsdiff4::read` in src/lib.rs):
    an 8-byte magic tag, three 8-byte lengths, a bzip2 control block of
    `len_control` bytes, a bzip2 diff block of `len_diff` bytes, and a bzip2
    extra block running to the end of the input. */
module Container {
  import opened Types
  import opened Integers
  import opened Streams
  import opened ControlBlock

  /** "BSDIFF40" */
  const MAGIC: seq<byte> := [0x42, 0x53, 0x44, 0x49, 0x46, 0x46, 0x34, 0x30]

  /** Magic tag plus the three length fields. */
  const HEADER_SIZE: nat := 32

  /** A parsed patch. `newSize` is the length the header announces for the
      output; the three streams are already decompressed. */
  datatype Patch = Patch(newSize: Length, control: seq<Control>, diff: seq<byte>, extra: seq<byte>)

  /** `read_positive_le_i64` applied to the 8 header bytes at offset `at`. */
  function PositiveLeField(input: seq<byte>, at: nat): (r: Result<Length>)
    ensures |input| < at + 8 ==> r == Err(UnexpectedEof)
  {
    if |input| < at + 8 then Err(UnexpectedEof) else PositiveLeI64(input[at..at + 8])
  }

  /** The three blocks that follow the header, as `Bsdiff4::read` reads them
      from the rest of the stream: the bounded blocks take the next `len`
      bytes, or what is left when the stream is shorter. */
  function ParseBlocks(rest: seq<byte>, bz: Decompressor, lenControl: nat, lenDiff: nat, newSize: Length)
    : Result<Patch>
  {
    var controlWindow := rest[..Min(lenControl, |rest|)];
    var afterControl := rest[Min(lenControl, |rest|)..];
    var diffWindow := afterControl[..Min(lenDiff, |afterControl|)];
    var afterDiff := afterControl[Min(lenDiff, |afterControl|)..];
    var block :- Decompress(bz, controlWindow);
    var control :- DecodeControls(block);
    var diff :- Decompress(bz, diffWindow);
    var extra :- Decompress(bz, afterDiff);
    Ok(Patch(newSize, control, diff, extra))
  }

  /** What `Bsdiff4::read` makes of an input stream, field by field in stream
      order: magic, `len_control`, `len_diff`, `new_size`, then the blocks. */
  function Parse(input: seq<byte>, bz: Decompressor): (r: Result<Patch>)
    ensures |input| < 8 ==> r == Err(UnexpectedEof)
    ensures |input| >= 8 && input[..8] != MAGIC ==> r == Err(BadMagic)
    // The three lengths are read one after another: each is refused for a
    // set sign bit before the next one is looked at.
    ensures |input| >= 8 && input[..8] == MAGIC ==>
              && (|input| < 16 ==> r == Err(UnexpectedEof))
              && (|input| >= 16 && input[15] >= 0x80 ==> r == Err(NegativeLength))
              && (|input| >= 16 && input[15] < 0x80 && |input| < 24 ==> r == Err(UnexpectedEof))
              && (|input| >= 24 && input[15] < 0x80 && input[23] >= 0x80 ==> r == Err(NegativeLength))
              && (|input| >= 24 && input[15] < 0x80 && input[23] < 0x80 && |input| < HEADER_SIZE
                  ==> r == Err(UnexpectedEof))
    ensures (|input| >= HEADER_SIZE && input[..8] == MAGIC
              && (input[15] >= 0x80 || input[23] >= 0x80 || input[31] >= 0x80)) ==> r == Err(NegativeLength)
    ensures r.Ok? ==>
              && |input| >= HEADER_SIZE && input[..8] == MAGIC
              && input[15] < 0x80 && input[23] < 0x80 && input[31] < 0x80
              && r.value.newSize == LeNat(input[24..32])
  {
    if |input| < 8 then Err(UnexpectedEof)
    else if input[..8] != MAGIC then Err(BadMagic)
    else
      var lenControl :- PositiveLeField(input, 8);
      var lenDiff :- PositiveLeField(input, 16);
      var newSize :- PositiveLeField(input, 24);
      ParseBlocks(input[HEADER_SIZE..], bz, lenControl, lenDiff, newSize)
  }

  /** `Bsdiff4::read`: consumes the reader and yields exactly what `Parse`
      yields for its contents. */
  method Read(r: Cursor, bz: Decompressor) returns (res: Result<Patch>)
    modifies r
    ensures res == Parse(old(r.Remaining()), bz)
  {
    ghost var input := r.Remaining();
    var magic :- ReadExact(r, |MAGIC|);
    if magic != MAGIC {
      return Err(BadMagic);
    }
    assert r.Remaining() == input[8..];
    var lenControl :- ReadPositiveLeI64(r);
    assert input[8..][..8] == input[8..16] && r.Remaining() == input[16..];
    var lenDiff :- ReadPositiveLeI64(r);
    assert input[16..][..8] == input[16..24] && r.Remaining() == input[24..];
    var newSize :- ReadPositiveLeI64(r);
    assert input[24..][..8] == input[24..32] && r.Remaining() == input[HEADER_SIZE..];
    assert Parse(input, bz) == ParseBlocks(input[HEADER_SIZE..], bz, lenControl, lenDiff, newSize);
    // `usize::try_from(new_size)` cannot fail on a 64-bit target.
    var control :- ReadControlBlock(r, bz, lenControl);
    var diff :- ReadBzipBlock(r, bz, lenDiff);
    var extra :- ReadBzipToEnd(r, bz);
    return Ok(Patch(newSize, control, diff, extra));
  }

  /** The bytes of a patch as a bsdiff4 writer lays them out, given the bzip2
      compressor it uses. */
  function Serialize(p: Patch, compress: seq<byte> -> seq<byte>): (s: seq<byte>)
    requires |compress(EncodeControls(p.control))| <= I64_MAX
    requires |compress(p.diff)| <= I64_MAX
    ensures |s| >= HEADER_SIZE && s[..8] == MAGIC
  {
    var controlBlock := compress(EncodeControls(p.control));
    var diffBlock := compress(p.diff);
    MAGIC + EncodeLeI64(|controlBlock|) + EncodeLeI64(|diffBlock|) + EncodeLeI64(p.newSize)
      + controlBlock + diffBlock + compress(p.extra)
  }

  /** An 8-byte non-negative field written by `EncodeLeI64` reads back. */
  lemma PositiveOfEncode(x: Length)
    ensures PositiveLeI64(EncodeLeI64(x)) == Ok(x)
  {
    LeI64OfEncode(x);
  }

  /** Where `Serialize` puts each field. */
  lemma SerializeLayout(p: Patch, compress: seq<byte> -> seq<byte>)
    requires |compress(EncodeControls(p.control))| <= I64_MAX
    requires |compress(p.diff)| <= I64_MAX
    ensures var s := Serialize(p, compress);
      var controlBlock := compress(EncodeControls(p.control));
      var diffBlock := compress(p.diff);
      && s[8..16] == EncodeLeI64(|controlBlock|)
      && s[16..24] == EncodeLeI64(|diffBlock|)
      && s[24..32] == EncodeLeI64(p.newSize)
      && s[HEADER_SIZE..] == controlBlock + diffBlock + compress(p.extra)
  {
    var controlBlock := compress(EncodeControls(p.control));
    var diffBlock := compress(p.diff);
    var a := EncodeLeI64(|controlBlock|);
    var b := EncodeLeI64(|diffBlock|);
    var c := EncodeLeI64(p.newSize);
    var blocks := controlBlock + diffBlock + compress(p.extra);
    var header := MAGIC + a + b + c;
    assert Serialize(p, compress) == header + blocks;
    assert header[8..16] == a && header[16..24] == b && header[24..32] == c;
  }

  /** The three blocks laid end to end parse back, given what the decoder
      makes of each. */
  lemma ParseBlocksOfLayout(controlBlock: seq<byte>, diffBlock: seq<byte>, extraBlock: seq<byte>,
                            bz: Decompressor, p: Patch)
    requires bz(controlBlock) == Some(EncodeControls(p.control))
    requires bz(diffBlock) == Some(p.diff) && bz(extraBlock) == Some(p.extra)
    ensures ParseBlocks(controlBlock + diffBlock + extraBlock, bz, |controlBlock|, |diffBlock|, p.newSize) == Ok(p)
  {
    var rest := controlBlock + diffBlock + extraBlock;
    assert rest[..|controlBlock|] == controlBlock;
    assert rest[|controlBlock|..] == diffBlock + extraBlock;
    assert (diffBlock + extraBlock)[..|diffBlock|] == diffBlock;
    assert (diffBlock + extraBlock)[|diffBlock|..] == extraBlock;
    DecodeControlsOfEncode(p.control);
  }

  /** Reading a serialized patch gives the patch back, given a decoder that
      inverts the compressor. */
  lemma ParseOfSerialize(p: Patch, bz: Decompressor, compress: seq<byte> -> seq<byte>)
    requires forall x :: bz(compress(x)) == Some(x)
    requires |compress(EncodeControls(p.control))| <= I64_MAX
    requires |compress(p.diff)| <= I64_MAX
    ensures Parse(Serialize(p, compress), bz) == Ok(p)
  {
    var controlBlock := compress(EncodeControls(p.control));
    var diffBlock := compress(p.diff);
    var extraBlock := compress(p.extra);
    SerializeLayout(p, compress);
    PositiveOfEncode(|controlBlock|);
    PositiveOfEncode(|diffBlock|);
    PositiveOfEncode(p.newSize);
    ParseBlocksOfLayout(controlBlock, diffBlock, extraBlock, bz, p);
  }
}
