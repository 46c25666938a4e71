/** The control block of a bsdiff4 patch (`read_control_block` and `Control`
    in src/lib.rs): after decompression, a sequence of 24-byte records, each
    holding `diff_amount`, `extra_amount` and `seek` as 8-byte little-endian
    fields. */
module ControlBlock {
  import opened Types
  import opened Integers
  import opened Streams

  /** `3 * size_of::<u64>()`. */
  const CONTROL_SIZE: nat := 24

  /** One instruction: add `diffAmount` bytes of the diff stream to as many
      bytes of the original, insert `extraAmount` bytes of the extra stream,
      then move the original's cursor by `seek`. */
  datatype Control = Control(diffAmount: Length, extraAmount: Length, seek: Int64)

  /** Record i of a control block: bytes [24 i, 24 i + 24). */
  function RecordAt(block: seq<byte>, i: nat): (rec: seq<byte>)
    requires CONTROL_SIZE * (i + 1) <= |block|
    ensures |rec| == CONTROL_SIZE
  {
    block[CONTROL_SIZE * i .. CONTROL_SIZE * (i + 1)]
  }

  /** The three fields of one record, read in order. The record is rejected
      exactly when `diff_amount` or `extra_amount` has its sign bit set. */
  function DecodeRecord(rec: seq<byte>): (r: Result<Control>)
    requires |rec| == CONTROL_SIZE
    ensures r.Ok? <==> rec[7] < 0x80 && rec[15] < 0x80
    ensures r.Err? ==> r.error == NegativeLength
    ensures r.Ok? ==>
              && r.value.diffAmount == LeNat(rec[..8])
              && r.value.extraAmount == LeNat(rec[8..16])
              && r.value.seek == OnesComplementLeI64(rec[16..])
  {
    var diffAmount :- PositiveLeI64(rec[..8]);
    var extraAmount :- PositiveLeI64(rec[8..16]);
    Ok(Control(diffAmount, extraAmount, OnesComplementLeI64(rec[16..])))
  }

  /** The records of a block of whole records, in stream order; the first
      rejected record rejects the block. */
  function DecodeRecords(block: seq<byte>): Result<seq<Control>>
    requires |block| % CONTROL_SIZE == 0
    decreases |block|
  {
    if |block| == 0 then Ok([])
    else
      var control :- DecodeRecord(block[..CONTROL_SIZE]);
      var rest :- DecodeRecords(block[CONTROL_SIZE..]);
      Ok([control] + rest)
  }

  /** The decompressed control block as `read_control_block` decodes it. */
  function DecodeControls(block: seq<byte>): (r: Result<seq<Control>>)
    ensures |block| % CONTROL_SIZE != 0 ==> r == Err(ControlBlockSize)
  {
    if |block| % CONTROL_SIZE != 0 then Err(ControlBlockSize) else DecodeRecords(block)
  }

  lemma RecordAtTail(block: seq<byte>, i: nat)
    requires CONTROL_SIZE * (i + 2) <= |block|
    ensures RecordAt(block[CONTROL_SIZE..], i) == RecordAt(block, i + 1)
  {
    assert CONTROL_SIZE + CONTROL_SIZE * i == CONTROL_SIZE * (i + 1);
    assert CONTROL_SIZE + CONTROL_SIZE * (i + 1) == CONTROL_SIZE * (i + 2);
  }

  lemma {:induction false} DecodeRecordsCorrect(block: seq<byte>)
    requires |block| % CONTROL_SIZE == 0
    ensures DecodeRecords(block).Ok? <==>
      forall i :: 0 <= i < |block| / CONTROL_SIZE ==> DecodeRecord(RecordAt(block, i)).Ok?
    ensures DecodeRecords(block).Ok? ==>
      var controls := DecodeRecords(block).value;
      |controls| == |block| / CONTROL_SIZE &&
      forall i :: 0 <= i < |block| / CONTROL_SIZE ==> controls[i] == DecodeRecord(RecordAt(block, i)).value
    decreases |block|
  {
    if |block| > 0 {
      var tail := block[CONTROL_SIZE..];
      DecodeRecordsCorrect(tail);
      assert RecordAt(block, 0) == block[..CONTROL_SIZE];
      forall i | 0 <= i < |tail| / CONTROL_SIZE
        ensures RecordAt(tail, i) == RecordAt(block, i + 1)
      {
        RecordAtTail(block, i);
      }
      if DecodeRecords(block).Ok? {
        var controls := DecodeRecords(block).value;
        forall i | 0 <= i < |block| / CONTROL_SIZE
          ensures DecodeRecord(RecordAt(block, i)).Ok? && controls[i] == DecodeRecord(RecordAt(block, i)).value
        {
          if i > 0 {
            assert controls[i] == DecodeRecords(tail).value[i - 1];
          }
        }
      } else if DecodeRecord(block[..CONTROL_SIZE]).Ok? {
        var j :| 0 <= j < |tail| / CONTROL_SIZE && !DecodeRecord(RecordAt(tail, j)).Ok?;
        assert !DecodeRecord(RecordAt(block, j + 1)).Ok?;
      }
    }
  }

  /** `read_control_block` accepts the block exactly when its length is a
      multiple of 24 and no record has a negative `diff_amount` or
      `extra_amount`; it then yields len/24 controls, control i decoded from
      bytes [24 i, 24 i + 24). */
  lemma DecodeControlsCorrect(block: seq<byte>)
    ensures DecodeControls(block).Ok? <==>
      |block| % CONTROL_SIZE == 0 &&
      forall i :: 0 <= i < |block| / CONTROL_SIZE ==> RecordAt(block, i)[7] < 0x80 && RecordAt(block, i)[15] < 0x80
    ensures DecodeControls(block).Ok? ==>
      var controls := DecodeControls(block).value;
      |controls| == |block| / CONTROL_SIZE &&
      forall i :: 0 <= i < |block| / CONTROL_SIZE ==> Ok(controls[i]) == DecodeRecord(RecordAt(block, i))
  {
    if |block| % CONTROL_SIZE == 0 {
      DecodeRecordsCorrect(block);
    }
  }

  /** The 24 bytes a bsdiff4 writer emits for one control: the seek goes
      through the same sign-magnitude conversion, which is its own inverse. */
  function EncodeRecord(c: Control): (rec: seq<byte>)
    ensures |rec| == CONTROL_SIZE
  {
    EncodeLeI64(c.diffAmount) + EncodeLeI64(c.extraAmount) + EncodeLeI64(OnesComplement(c.seek))
  }

  function EncodeControls(cs: seq<Control>): (block: seq<byte>)
    ensures |block| == CONTROL_SIZE * |cs|
  {
    if cs == [] then [] else EncodeRecord(cs[0]) + EncodeControls(cs[1..])
  }

  lemma DecodeRecordOfEncode(c: Control)
    ensures DecodeRecord(EncodeRecord(c)) == Ok(c)
  {
    var rec := EncodeRecord(c);
    assert rec[..8] == EncodeLeI64(c.diffAmount);
    assert rec[8..16] == EncodeLeI64(c.extraAmount);
    assert rec[16..] == EncodeLeI64(OnesComplement(c.seek));
    LeI64OfEncode(c.diffAmount);
    LeI64OfEncode(c.extraAmount);
    LeI64OfEncode(OnesComplement(c.seek));
    OnesComplementInvolution(c.seek);
  }

  /** Decoding what a writer encodes gives back the same controls, in order. */
  lemma {:induction false} DecodeControlsOfEncode(cs: seq<Control>)
    ensures DecodeControls(EncodeControls(cs)) == Ok(cs)
  {
    if cs != [] {
      var block := EncodeControls(cs);
      assert block[..CONTROL_SIZE] == EncodeRecord(cs[0]);
      assert block[CONTROL_SIZE..] == EncodeControls(cs[1..]);
      DecodeRecordOfEncode(cs[0]);
      DecodeControlsOfEncode(cs[1..]);
      assert [cs[0]] + cs[1..] == cs;
    }
  }

  /** `r` prefixed with the controls already decoded. */
  function Prepend(done: seq<Control>, r: Result<seq<Control>>): Result<seq<Control>> {
    if r.Ok? then Ok(done + r.value) else r
  }

  /** The first record of a block decides whether the block decodes; the
      others follow it. */
  lemma DecodeRecordsFront(block: seq<byte>)
    requires |block| >= CONTROL_SIZE && |block| % CONTROL_SIZE == 0
    ensures var first := DecodeRecord(block[..CONTROL_SIZE]);
      DecodeRecords(block) == if first.Err? then Err(first.error)
                              else Prepend([first.value], DecodeRecords(block[CONTROL_SIZE..]))
  {
  }

  /** One more record decoded from the front of `rest`, extending the
      controls already decoded. */
  lemma DecodeRecordsStep(done: seq<Control>, rest: seq<byte>)
    requires |rest| >= CONTROL_SIZE && |rest| % CONTROL_SIZE == 0
    ensures var first := DecodeRecord(rest[..CONTROL_SIZE]);
      Prepend(done, DecodeRecords(rest)) ==
        if first.Err? then Err(first.error)
        else Prepend(done + [first.value], DecodeRecords(rest[CONTROL_SIZE..]))
  {
    DecodeRecordsFront(rest);
    var later := DecodeRecords(rest[CONTROL_SIZE..]);
    var first := DecodeRecord(rest[..CONTROL_SIZE]);
    if first.Ok? && later.Ok? {
      AppendAssoc(done, [first.value], later.value);
    }
  }

  lemma WholeRecords(n: nat)
    ensures (CONTROL_SIZE * n) % CONTROL_SIZE == 0
  {
  }

  /** The `Control { .. }` literal of `read_control_block`: three successive
      8-byte reads from the cursor on the block. */
  method ReadControl(cursor: Cursor) returns (r: Result<Control>)
    requires |cursor.Remaining()| >= CONTROL_SIZE
    modifies cursor
    ensures r == DecodeRecord(old(cursor.Remaining())[..CONTROL_SIZE])
    ensures r.Ok? ==> cursor.Remaining() == old(cursor.Remaining())[CONTROL_SIZE..]
  {
    ghost var rest := cursor.Remaining();
    ghost var rec := rest[..CONTROL_SIZE];
    assert rec[..8] == rest[..8] && rec[8..16] == rest[8..][..8] && rec[16..] == rest[16..][..8];
    var diffAmount :- ReadPositiveLeI64(cursor);
    var extraAmount :- ReadPositiveLeI64(cursor);
    // The `?` on this read never fires: the record has 8 bytes left.
    var seek := ReadOnesComplementLeI64(cursor);
    if seek.Err? {
      assert false;
    }
    assert rest[8..][8..] == rest[16..] && rest[16..][8..] == rest[CONTROL_SIZE..];
    return Ok(Control(diffAmount, extraAmount, seek.value));
  }

  /** The loop of `read_control_block` over a `Cursor` on the decompressed block. */
  method DecodeControlBlock(block: seq<byte>) returns (r: Result<seq<Control>>)
    ensures r == DecodeControls(block)
  {
    if |block| % CONTROL_SIZE != 0 {
      return Err(ControlBlockSize);
    }
    var numControl := |block| / CONTROL_SIZE;
    var controlBlock: seq<Control> := [];
    var cursor := new Cursor(block);
    assert DecodeRecords(block).Ok? ==> [] + DecodeRecords(block).value == DecodeRecords(block).value;
    for i := 0 to numControl
      invariant cursor.Remaining() == block[CONTROL_SIZE * i..]
      invariant |block[CONTROL_SIZE * i..]| == CONTROL_SIZE * (numControl - i)
      invariant DecodeRecords(block) == Prepend(controlBlock, DecodeRecords(block[CONTROL_SIZE * i..]))
    {
      ghost var rest := block[CONTROL_SIZE * i..];
      assert rest[CONTROL_SIZE..] == block[CONTROL_SIZE * (i + 1)..];
      WholeRecords(numControl - i);
      DecodeRecordsStep(controlBlock, rest);
      var control :- ReadControl(cursor);
      controlBlock := controlBlock + [control];
    }
    assert block[CONTROL_SIZE * numControl..] == [];
    assert controlBlock + [] == controlBlock;
    return Ok(controlBlock);
  }

  /** `read_control_block(r, len)`: decompress the next len bytes of the
      patch, then decode them as control records. */
  method ReadControlBlock(r: Cursor, bz: Decompressor, len: nat) returns (res: Result<seq<Control>>)
    modifies r
    ensures var rest := old(r.Remaining());
      var block := Decompress(bz, rest[..Min(len, |rest|)]);
      res == if block.Ok? then DecodeControls(block.value) else Err(block.error)
    ensures r.Remaining() == old(r.Remaining())[Min(len, |old(r.Remaining())|)..]
  {
    var block :- ReadBzipBlock(r, bz, len);
    res := DecodeControlBlock(block);
  }
}
