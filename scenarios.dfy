/** Concrete cases of the model: the behaviours a reader of the format
    expects to see on small inputs. */
module Scenarios {
  import opened Types
  import opened Integers
  import opened Streams
  import opened ControlBlock
  import opened Container
  import opened Applier

  /** Byte arithmetic wraps: a copied original byte x plus a diff byte y
      whose sum passes 0xFF gives x + y - 0x100 (0xFF plus 0x02 gives 0x01),
      not an error and not a clamped 0xFF. */
  lemma WrapAround(x: byte, y: byte)
    requires x + y >= 0x100
    ensures Step(Control(1, 0, 0), [x], [y], [], Cursors(0, 0, 0))
              == Ok(Replayed([x + y - 0x100], Cursors(1, 1, 0)))
    ensures WrappingAdd(0xFF, 0x02) == 0x01
  {
    var original: seq<byte> := [x];
    var diff: seq<byte> := [y];
    var extra: seq<byte> := [];
    assert RemainingAt(original, 0)[..1] == original;
    assert diff[0..1] == diff;
    assert AddBytes(original, diff) == [x + y - 0x100];
    StepValue(Control(1, 0, 0), original, diff, extra, Cursors(0, 0, 0));
    assert [x + y - 0x100] + extra[0..0] == [x + y - 0x100];
  }

  /** "hello world" through the identity patch: eleven bytes copied with
      eleven zero diff bytes come back unchanged. */
  lemma HelloWorld()
    ensures var hello: seq<byte> := [0x68, 0x65, 0x6C, 0x6C, 0x6F, 0x20, 0x77, 0x6F, 0x72, 0x6C, 0x64];
      Reconstruct(Patch(11, [Control(11, 0, 0)], Zeros(11), []), hello) == Ok(hello)
  {
    var hello: seq<byte> := [0x68, 0x65, 0x6C, 0x6C, 0x6F, 0x20, 0x77, 0x6F, 0x72, 0x6C, 0x64];
    IdentityPatch(hello);
  }

  /** A seek field with the sign bit set and magnitude 5 moves the original
      back by 5. */
  lemma SeekBackFive()
    ensures OnesComplementLeI64([5, 0, 0, 0, 0, 0, 0, 0x80]) == -5
  {
    var b: seq<byte> := [5, 0, 0, 0, 0, 0, 0, 0x80];
    LeNat8(b[7 := 0]);
    OnesComplementIsSignMagnitude(b);
  }

  /** The sign bit with magnitude zero ("negative zero") decodes to
      `i64::MIN`, not to 0. */
  lemma NegativeZero()
    ensures OnesComplementLeI64([0, 0, 0, 0, 0, 0, 0, 0x80]) == I64_MIN
  {
    var b: seq<byte> := [0, 0, 0, 0, 0, 0, 0, 0x80];
    LeNat8(b[7 := 0]);
    OnesComplementIsSignMagnitude(b);
  }

  /** So a control whose seek is "negative zero" fails where a seek of 0 would
      not: from any position below 2^63 it cannot move by `i64::MIN`. */
  lemma NegativeZeroSeekFails(original: seq<byte>, diff: seq<byte>, extra: seq<byte>, s: Cursors)
    requires 0 <= s.pos < TWO_63 && s.diffPos <= |diff| && s.extraPos <= |extra|
    ensures Step(Control(0, 0, I64_MIN), original, diff, extra, s) == Err(InvalidSeek)
    ensures Step(Control(0, 0, 0), original, diff, extra, s).Ok?
  {
  }

  /** A header whose target length has its sign bit set is refused, however
      the rest of the patch looks. */
  lemma NegativeTargetLength(rest: seq<byte>, bz: Decompressor)
    ensures var header := MAGIC + LeBytes(0, 8) + LeBytes(0, 8) + [1, 0, 0, 0, 0, 0, 0, 0x80];
      Parse(header + rest, bz) == Err(NegativeLength)
  {
    var header := MAGIC + LeBytes(0, 8) + LeBytes(0, 8) + [1, 0, 0, 0, 0, 0, 0, 0x80];
    assert (header + rest)[..8] == MAGIC;
    assert (header + rest)[31] == 0x80;
  }
}
