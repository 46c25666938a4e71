/** Values shared by every part of the bsdiff4 model: bytes, optional values and
    the failure-compatible result of every fallible operation. */
module Types {

  /** An unsigned 8-bit value (Rust `u8`). */
  type byte = x: int | 0 <= x < 0x100

  datatype Option<+T> = None | Some(value: T)

  /** The ways reading or applying a patch can fail. The source reports them as
      `anyhow` errors with a message; only the kind is kept here. */
  datatype Error =
    | UnexpectedEof       // a fixed-size field ran past the end of its stream
    | BadMagic            // the first 8 bytes are not "BSDIFF40"
    | NegativeLength      // a length field has its sign bit set (`u64::try_from` fails)
    | CorruptBlock        // the bzip2 decoder rejected a block
    | ControlBlockSize    // the control block is not a whole number of 24-byte records
    | OriginalExhausted   // the original has fewer bytes left than a control copies
    | DiffExhausted       // the diff stream has fewer bytes left than a control adds
    | ExtraExhausted      // the extra stream has fewer bytes left than a control inserts
    | InvalidSeek         // a seek would leave the range 0 ..= u64::MAX

  datatype Result<+T> = Ok(value: T) | Err(error: Error) {
    predicate IsFailure() { Err? }

    function PropagateFailure<U>(): Result<U>
      requires Err?
    {
      Err(error)
    }

    function Extract(): T
      requires Ok?
    {
      value
    }
  }

  function Min(a: int, b: int): int {
    if a <= b then a else b
  }

  lemma AppendAssoc<T>(a: seq<T>, b: seq<T>, c: seq<T>)
    ensures (a + b) + c == a + (b + c)
  {
  }

  lemma SliceAfter<T>(a: seq<T>, b: seq<T>, lo: nat, hi: nat)
    requires lo <= hi <= |b|
    ensures (a + b)[|a| + lo..|a| + hi] == b[lo..hi]
  {
  }
}
