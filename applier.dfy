/** Patch application (`Bsdiff4::apply` and `Bsdiff4::apply_to_slice` in
    src/lib.rs). For each control in order: copy `diff_amount` bytes of the
    original, add as many diff bytes to them modulo 256, append the result,
    append `extra_amount` bytes of the extra stream, then move the original's
    cursor by `seek`. */
module Applier {
  import opened Types
  import opened Integers
  import opened Streams
  import opened ControlBlock
  import opened Container

  /** The three cursors of one application: the position in the original and
      how far the diff and extra streams have been read. */
  datatype Cursors = Cursors(pos: int, diffPos: nat, extraPos: nat)

  /** What some controls produce and where they leave the cursors. */
  datatype Replayed = Replayed(output: seq<byte>, cursors: Cursors)

  /** What a `Cursor` at pos would read from s. Positions below zero never
      arise (a seek refuses them); they read nothing. */
  function RemainingAt(s: seq<byte>, pos: int): seq<byte> {
    if 0 <= pos <= |s| then s[pos..] else []
  }

  /** Element-wise `u8::wrapping_add` of two chunks of the same length. */
  function AddBytes(a: seq<byte>, b: seq<byte>): (r: seq<byte>)
    requires |a| == |b|
    ensures |r| == |a|
  {
    if |a| == 0 then [] else [WrappingAdd(a[0], b[0])] + AddBytes(a[1..], b[1..])
  }

  lemma {:induction false} AddBytesAt(a: seq<byte>, b: seq<byte>)
    requires |a| == |b|
    ensures forall k :: 0 <= k < |a| ==> AddBytes(a, b)[k] == WrappingAdd(a[k], b[k])
  {
    if |a| > 0 {
      AddBytesAt(a[1..], b[1..]);
    }
  }

  /** One iteration of the loop in `Bsdiff4::apply`. The checks come in the
      order the source performs them: original, diff, extra, seek. */
  function Step(c: Control, original: seq<byte>, diff: seq<byte>, extra: seq<byte>, s: Cursors)
    : (r: Result<Replayed>)
    ensures r.Ok? <==>
              && c.diffAmount <= |RemainingAt(original, s.pos)|
              && s.diffPos + c.diffAmount <= |diff|
              && s.extraPos + c.extraAmount <= |extra|
              && 0 <= s.pos + c.diffAmount + c.seek <= U64_MAX
    ensures r == Err(OriginalExhausted) <==> c.diffAmount > |RemainingAt(original, s.pos)|
    ensures r == Err(DiffExhausted) <==>
              c.diffAmount <= |RemainingAt(original, s.pos)| && s.diffPos + c.diffAmount > |diff|
    ensures r == Err(ExtraExhausted) <==>
              && c.diffAmount <= |RemainingAt(original, s.pos)|
              && s.diffPos + c.diffAmount <= |diff|
              && s.extraPos + c.extraAmount > |extra|
    ensures r == Err(InvalidSeek) <==>
              && c.diffAmount <= |RemainingAt(original, s.pos)|
              && s.diffPos + c.diffAmount <= |diff|
              && s.extraPos + c.extraAmount <= |extra|
              && !(0 <= s.pos + c.diffAmount + c.seek <= U64_MAX)
    ensures r.Ok? ==>
              && |r.value.output| == c.diffAmount + c.extraAmount
              && r.value.cursors == Cursors(s.pos + c.diffAmount + c.seek,
                                            s.diffPos + c.diffAmount,
                                            s.extraPos + c.extraAmount)
  {
    var rest := RemainingAt(original, s.pos);
    if c.diffAmount > |rest| then Err(OriginalExhausted)
    else if s.diffPos + c.diffAmount > |diff| then Err(DiffExhausted)
    else if s.extraPos + c.extraAmount > |extra| then Err(ExtraExhausted)
    else
      var pos := s.pos + c.diffAmount + c.seek;
      if pos < 0 || pos > U64_MAX then Err(InvalidSeek)
      else
        var added := AddBytes(rest[..c.diffAmount], diff[s.diffPos..s.diffPos + c.diffAmount]);
        var inserted := extra[s.extraPos..s.extraPos + c.extraAmount];
        Ok(Replayed(added + inserted, Cursors(pos, s.diffPos + c.diffAmount, s.extraPos + c.extraAmount)))
  }

  /** The bytes one successful step appends: `diff_amount` original bytes
      plus diff bytes modulo 256, then `extra_amount` extra bytes verbatim. */
  lemma StepOutput(c: Control, original: seq<byte>, diff: seq<byte>, extra: seq<byte>, s: Cursors)
    requires Step(c, original, diff, extra, s).Ok?
    ensures var out := Step(c, original, diff, extra, s).value.output;
      && (c.diffAmount > 0 ==> 0 <= s.pos && s.pos + c.diffAmount <= |original|)
      && (forall k :: 0 <= k < c.diffAmount ==>
            out[k] == WrappingAdd(original[s.pos + k], diff[s.diffPos + k]))
      && out[c.diffAmount..] == extra[s.extraPos..s.extraPos + c.extraAmount]
  {
    var copied := RemainingAt(original, s.pos)[..c.diffAmount];
    var added := diff[s.diffPos..s.diffPos + c.diffAmount];
    var inserted := extra[s.extraPos..s.extraPos + c.extraAmount];
    StepValue(c, original, diff, extra, s);
    AddBytesAt(copied, added);
    var out := AddBytes(copied, added) + inserted;
    forall k | 0 <= k < c.diffAmount
      ensures out[k] == WrappingAdd(original[s.pos + k], diff[s.diffPos + k])
    {
      assert out[k] == AddBytes(copied, added)[k];
    }
    assert out[c.diffAmount..] == inserted;
  }

  /** The controls replayed in order from the cursors s; the first failing
      step fails the whole replay. */
  function ReplayFrom(cs: seq<Control>, original: seq<byte>, diff: seq<byte>, extra: seq<byte>, s: Cursors)
    : Result<Replayed>
    decreases |cs|
  {
    if cs == [] then Ok(Replayed([], s))
    else
      var first :- Step(cs[0], original, diff, extra, s);
      var rest :- ReplayFrom(cs[1..], original, diff, extra, first.cursors);
      Ok(Replayed(first.output + rest.output, rest.cursors))
  }

  /** `apply_to_slice`: the patch applied to an original buffer, every cursor
      starting at 0. */
  function Reconstruct(p: Patch, original: seq<byte>): Result<seq<byte>> {
    var r :- ReplayFrom(p.control, original, p.diff, p.extra, Cursors(0, 0, 0));
    Ok(r.output)
  }

  /** Bytes taken from the diff stream by the controls cs. */
  function DiffUsed(cs: seq<Control>): nat {
    if cs == [] then 0 else cs[0].diffAmount + DiffUsed(cs[1..])
  }

  /** Bytes taken from the extra stream by the controls cs. */
  function ExtraUsed(cs: seq<Control>): nat {
    if cs == [] then 0 else cs[0].extraAmount + ExtraUsed(cs[1..])
  }

  /** Net movement of the original's cursor over the controls cs. */
  function Moved(cs: seq<Control>): int {
    if cs == [] then 0 else cs[0].diffAmount + cs[0].seek + Moved(cs[1..])
  }

  /** The cursors just before control i, in closed form: each earlier control
      moved the original by `diff_amount + seek` and used its amounts. */
  function CursorsAt(cs: seq<Control>, i: nat, s: Cursors): Cursors
    requires i <= |cs|
  {
    Cursors(s.pos + Moved(cs[..i]), s.diffPos + DiffUsed(cs[..i]), s.extraPos + ExtraUsed(cs[..i]))
  }

  /** Where the output of control i starts. */
  function OutputAt(cs: seq<Control>, i: nat): nat
    requires i <= |cs|
  {
    DiffUsed(cs[..i]) + ExtraUsed(cs[..i])
  }

  lemma CursorsAtTail(cs: seq<Control>, i: nat, s: Cursors)
    requires 0 < |cs| && i < |cs|
    ensures var c := cs[0];
      var next := Cursors(s.pos + c.diffAmount + c.seek, s.diffPos + c.diffAmount, s.extraPos + c.extraAmount);
      && CursorsAt(cs, i + 1, s) == CursorsAt(cs[1..], i, next)
      && OutputAt(cs, i + 1) == c.diffAmount + c.extraAmount + OutputAt(cs[1..], i)
  {
    assert cs[..i + 1][1..] == cs[1..][..i];
  }

  /** After a successful replay the output holds `diff_amount + extra_amount`
      bytes per control, and the cursors have moved by the sums of the
      controls' amounts and seeks. */
  lemma {:induction false} ReplayTotals(cs: seq<Control>, original: seq<byte>, diff: seq<byte>, extra: seq<byte>, s: Cursors)
    requires ReplayFrom(cs, original, diff, extra, s).Ok?
    ensures var r := ReplayFrom(cs, original, diff, extra, s).value;
      && |r.output| == DiffUsed(cs) + ExtraUsed(cs)
      && r.cursors == Cursors(s.pos + Moved(cs), s.diffPos + DiffUsed(cs), s.extraPos + ExtraUsed(cs))
    decreases |cs|
  {
    if cs != [] {
      var first := Step(cs[0], original, diff, extra, s).value;
      ReplayTotals(cs[1..], original, diff, extra, first.cursors);
    }
  }

  lemma CursorsAtZero(cs: seq<Control>, s: Cursors)
    ensures CursorsAt(cs, 0, s) == s && OutputAt(cs, 0) == 0
  {
    assert cs[..0] == [];
  }

  /** A successful replay of a non-empty cs is a successful first step
      followed by a successful replay of the rest. */
  lemma ReplayFirst(cs: seq<Control>, original: seq<byte>, diff: seq<byte>, extra: seq<byte>, s: Cursors)
    requires cs != [] && ReplayFrom(cs, original, diff, extra, s).Ok?
    ensures var step := Step(cs[0], original, diff, extra, s);
      && step.Ok?
      && var rest := ReplayFrom(cs[1..], original, diff, extra, step.value.cursors);
      && rest.Ok?
      && ReplayFrom(cs, original, diff, extra, s).value == Replayed(step.value.output + rest.value.output, rest.value.cursors)
  {
  }

  /** The piece of control 0 is the prefix of the output. */
  lemma PieceAtHead(cs: seq<Control>, original: seq<byte>, diff: seq<byte>, extra: seq<byte>, s: Cursors,
                    first: Replayed, restOut: seq<byte>)
    requires cs != [] && Step(cs[0], original, diff, extra, s) == Ok(first)
    ensures OutputAt(cs, 0) <= OutputAt(cs, 1) <= |first.output + restOut|
    ensures Step(cs[0], original, diff, extra, CursorsAt(cs, 0, s))
      == Ok(Replayed((first.output + restOut)[OutputAt(cs, 0)..OutputAt(cs, 1)], CursorsAt(cs, 1, s)))
  {
    CursorsAtTail(cs, 0, s);
    CursorsAtZero(cs, s);
    CursorsAtZero(cs[1..], first.cursors);
    assert (first.output + restOut)[0..|first.output|] == first.output;
  }

  /** Closed-form cursors and output offsets of cs at i + 1 are those of
      cs[1..] at i, after control 0 moved the cursors to next. */
  lemma ShiftAt(cs: seq<Control>, s: Cursors, i: nat, next: Cursors)
    requires 0 < i < |cs|
    requires next == Cursors(s.pos + cs[0].diffAmount + cs[0].seek, s.diffPos + cs[0].diffAmount,
                             s.extraPos + cs[0].extraAmount)
    ensures cs[1..][i - 1] == cs[i]
    ensures CursorsAt(cs, i, s) == CursorsAt(cs[1..], i - 1, next)
    ensures CursorsAt(cs, i + 1, s) == CursorsAt(cs[1..], i, next)
    ensures OutputAt(cs, i) == cs[0].diffAmount + cs[0].extraAmount + OutputAt(cs[1..], i - 1)
    ensures OutputAt(cs, i + 1) == cs[0].diffAmount + cs[0].extraAmount + OutputAt(cs[1..], i)
  {
    CursorsAtTail(cs, i - 1, s);
    CursorsAtTail(cs, i, s);
  }

  /** The piece of control i + 1 in cs is the piece of control i in cs[1..],
      shifted by the output of control 0. */
  lemma PieceAfterHead(cs: seq<Control>, original: seq<byte>, diff: seq<byte>, extra: seq<byte>, s: Cursors,
                       i: nat, first: Replayed, restOut: seq<byte>)
    requires 0 < i < |cs| && Step(cs[0], original, diff, extra, s) == Ok(first)
    requires OutputAt(cs[1..], i - 1) <= OutputAt(cs[1..], i) <= |restOut|
    requires Step(cs[1..][i - 1], original, diff, extra, CursorsAt(cs[1..], i - 1, first.cursors))
      == Ok(Replayed(restOut[OutputAt(cs[1..], i - 1)..OutputAt(cs[1..], i)], CursorsAt(cs[1..], i, first.cursors)))
    ensures OutputAt(cs, i) <= OutputAt(cs, i + 1) <= |first.output + restOut|
    ensures Step(cs[i], original, diff, extra, CursorsAt(cs, i, s))
      == Ok(Replayed((first.output + restOut)[OutputAt(cs, i)..OutputAt(cs, i + 1)], CursorsAt(cs, i + 1, s)))
  {
    ShiftAt(cs, s, i, first.cursors);
    var a := OutputAt(cs[1..], i - 1);
    var b := OutputAt(cs[1..], i);
    SliceAfter(first.output, restOut, a, b);
  }

  /** On success, control i ran from the closed-form cursors `CursorsAt(cs, i, s)`
      and produced exactly the output bytes [OutputAt(i), OutputAt(i + 1)):
      the output is the concatenation of the controls' pieces, in order. */
  lemma {:induction false} ReplayStepAt(cs: seq<Control>, original: seq<byte>, diff: seq<byte>, extra: seq<byte>,
                                        s: Cursors, i: nat)
    requires ReplayFrom(cs, original, diff, extra, s).Ok?
    requires i < |cs|
    ensures var out := ReplayFrom(cs, original, diff, extra, s).value.output;
      && OutputAt(cs, i) <= OutputAt(cs, i + 1) <= |out|
      && Step(cs[i], original, diff, extra, CursorsAt(cs, i, s))
           == Ok(Replayed(out[OutputAt(cs, i)..OutputAt(cs, i + 1)], CursorsAt(cs, i + 1, s)))
    decreases |cs|
  {
    ReplayFirst(cs, original, diff, extra, s);
    var first := Step(cs[0], original, diff, extra, s).value;
    var rest := ReplayFrom(cs[1..], original, diff, extra, first.cursors).value;
    if i == 0 {
      PieceAtHead(cs, original, diff, extra, s, first, rest.output);
    } else {
      ReplayStepAt(cs[1..], original, diff, extra, first.cursors, i - 1);
      PieceAfterHead(cs, original, diff, extra, s, i, first, rest.output);
    }
  }

  /** A replay succeeds when every control can run from its closed-form cursors. */
  lemma {:induction false} ReplayOfSteps(cs: seq<Control>, original: seq<byte>, diff: seq<byte>, extra: seq<byte>, s: Cursors)
    requires forall i :: 0 <= i < |cs| ==> Step(cs[i], original, diff, extra, CursorsAt(cs, i, s)).Ok?
    ensures ReplayFrom(cs, original, diff, extra, s).Ok?
    decreases |cs|
  {
    if cs != [] {
      assert cs[..0] == [];
      assert Step(cs[0], original, diff, extra, CursorsAt(cs, 0, s)).Ok?;
      var first := Step(cs[0], original, diff, extra, s).value;
      forall i | 0 <= i < |cs[1..]|
        ensures Step(cs[1..][i], original, diff, extra, CursorsAt(cs[1..], i, first.cursors)).Ok?
      {
        CursorsAtTail(cs, i, s);
        assert Step(cs[i + 1], original, diff, extra, CursorsAt(cs, i + 1, s)).Ok?;
      }
      ReplayOfSteps(cs[1..], original, diff, extra, first.cursors);
    }
  }

  /** `apply` fails exactly when some control, run from its closed-form
      cursors, finds the original, diff or extra stream too short or would
      seek out of range. */
  lemma ReplayOkIff(cs: seq<Control>, original: seq<byte>, diff: seq<byte>, extra: seq<byte>, s: Cursors)
    ensures ReplayFrom(cs, original, diff, extra, s).Ok? <==>
      forall i :: 0 <= i < |cs| ==> Step(cs[i], original, diff, extra, CursorsAt(cs, i, s)).Ok?
  {
    if ReplayFrom(cs, original, diff, extra, s).Ok? {
      forall i | 0 <= i < |cs|
        ensures Step(cs[i], original, diff, extra, CursorsAt(cs, i, s)).Ok?
      {
        ReplayStepAt(cs, original, diff, extra, s, i);
      }
    } else if forall i :: 0 <= i < |cs| ==> Step(cs[i], original, diff, extra, CursorsAt(cs, i, s)).Ok? {
      ReplayOfSteps(cs, original, diff, extra, s);
    }
  }

  /** Past a successful first step, a failed replay is the failed replay of
      the rest. */
  lemma ReplayErrRest(cs: seq<Control>, original: seq<byte>, diff: seq<byte>, extra: seq<byte>, s: Cursors)
    requires cs != [] && Step(cs[0], original, diff, extra, s).Ok?
    requires ReplayFrom(cs, original, diff, extra, s).Err?
    ensures ReplayFrom(cs[1..], original, diff, extra, Step(cs[0], original, diff, extra, s).value.cursors)
      == ReplayFrom(cs, original, diff, extra, s)
  {
  }

  /** Control i is the first control of cs that fails from its closed-form
      cursors, and it fails with e. */
  predicate FirstFailure(cs: seq<Control>, original: seq<byte>, diff: seq<byte>, extra: seq<byte>, s: Cursors,
                         i: int, e: Error)
  {
    && 0 <= i < |cs|
    && (forall j :: 0 <= j < i ==> Step(cs[j], original, diff, extra, CursorsAt(cs, j, s)).Ok?)
    && Step(cs[i], original, diff, extra, CursorsAt(cs, i, s)) == Err(e)
  }

  /** Controls 1 to k + 1 of cs run from their closed-form cursors when
      controls 0 to k of cs[1..] do from the cursors after control 0. */
  lemma StepsShift(cs: seq<Control>, original: seq<byte>, diff: seq<byte>, extra: seq<byte>, s: Cursors, k: nat)
    requires k < |cs| - 1 && Step(cs[0], original, diff, extra, s).Ok?
    requires var next := Step(cs[0], original, diff, extra, s).value.cursors;
      forall j :: 0 <= j <= k ==> Step(cs[1..][j], original, diff, extra, CursorsAt(cs[1..], j, next)).Ok?
    ensures forall j :: 0 < j <= k + 1 ==> Step(cs[j], original, diff, extra, CursorsAt(cs, j, s)).Ok?
  {
    var next := Step(cs[0], original, diff, extra, s).value.cursors;
    forall j | 0 < j <= k + 1
      ensures Step(cs[j], original, diff, extra, CursorsAt(cs, j, s)).Ok?
    {
      CursorsAtTail(cs, j - 1, s);
      assert Step(cs[1..][j - 1], original, diff, extra, CursorsAt(cs[1..], j - 1, next)).Ok?;
    }
  }

  /** A first failure at k in cs[1..], after a successful control 0, is a
      first failure at k + 1 in cs. */
  lemma FirstFailureShift(cs: seq<Control>, original: seq<byte>, diff: seq<byte>, extra: seq<byte>, s: Cursors,
                          k: int, e: Error)
    requires cs != [] && Step(cs[0], original, diff, extra, s).Ok?
    requires FirstFailure(cs[1..], original, diff, extra, Step(cs[0], original, diff, extra, s).value.cursors, k, e)
    ensures FirstFailure(cs, original, diff, extra, s, k + 1, e)
  {
    var next := Step(cs[0], original, diff, extra, s).value.cursors;
    CursorsAtZero(cs, s);
    if k > 0 {
      StepsShift(cs, original, diff, extra, s, k - 1);
    }
    CursorsAtTail(cs, k, s);
    assert CursorsAt(cs, k + 1, s) == CursorsAt(cs[1..], k, next);
    assert cs[k + 1] == cs[1..][k];
  }

  /** Why `apply` fails: a failed replay returns the error of the first
      control that cannot run from its closed-form cursors, every earlier
      control having run. */
  lemma {:induction false} ReplayErr(cs: seq<Control>, original: seq<byte>, diff: seq<byte>, extra: seq<byte>, s: Cursors)
    requires ReplayFrom(cs, original, diff, extra, s).Err?
    ensures exists i :: FirstFailure(cs, original, diff, extra, s, i, ReplayFrom(cs, original, diff, extra, s).error)
    decreases |cs|
  {
    assert cs != [];
    var e := ReplayFrom(cs, original, diff, extra, s).error;
    CursorsAtZero(cs, s);
    var step := Step(cs[0], original, diff, extra, s);
    if step.Err? {
      assert FirstFailure(cs, original, diff, extra, s, 0, e);
    } else {
      var next := step.value.cursors;
      ReplayErrRest(cs, original, diff, extra, s);
      ReplayErr(cs[1..], original, diff, extra, next);
      var k :| FirstFailure(cs[1..], original, diff, extra, next, k, e);
      FirstFailureShift(cs, original, diff, extra, s, k, e);
    }
  }

  /** What control i of a successful replay emits: its `diff_amount`
      original bytes, read from the closed-form position and added modulo 256
      to the diff bytes after the ones earlier controls used, then its
      `extra_amount` extra bytes, taken after the ones earlier controls used. */
  lemma ReplayPiece(cs: seq<Control>, original: seq<byte>, diff: seq<byte>, extra: seq<byte>, s: Cursors, i: nat)
    requires ReplayFrom(cs, original, diff, extra, s).Ok?
    requires i < |cs|
    ensures var out := ReplayFrom(cs, original, diff, extra, s).value.output;
      var at := CursorsAt(cs, i, s);
      var start := OutputAt(cs, i);
      var c := cs[i];
      && start + c.diffAmount + c.extraAmount <= |out|
      && c.diffAmount <= |RemainingAt(original, at.pos)|
      && at.diffPos + c.diffAmount <= |diff|
      && at.extraPos + c.extraAmount <= |extra|
      && out[start..start + c.diffAmount + c.extraAmount]
           == AddBytes(RemainingAt(original, at.pos)[..c.diffAmount], diff[at.diffPos..at.diffPos + c.diffAmount])
              + extra[at.extraPos..at.extraPos + c.extraAmount]
  {
    var at := CursorsAt(cs, i, s);
    ReplayStepAt(cs, original, diff, extra, s, i);
    CursorsAtTail(cs, i, s);
    StepValue(cs[i], original, diff, extra, at);
  }

  /** One step never looks past the diff and extra bytes it takes. */
  lemma StepIgnoresLeftover(c: Control, original: seq<byte>, diff: seq<byte>, extra: seq<byte>, s: Cursors,
                            moreDiff: seq<byte>, moreExtra: seq<byte>)
    requires Step(c, original, diff, extra, s).Ok?
    ensures Step(c, original, diff + moreDiff, extra + moreExtra, s) == Step(c, original, diff, extra, s)
  {
    assert (diff + moreDiff)[s.diffPos..s.diffPos + c.diffAmount] == diff[s.diffPos..s.diffPos + c.diffAmount];
    assert (extra + moreExtra)[s.extraPos..s.extraPos + c.extraAmount] == extra[s.extraPos..s.extraPos + c.extraAmount];
  }

  /** `apply` does not check that the diff and extra streams are used up:
      bytes after the ones a successful replay takes change nothing. */
  lemma {:induction false} ReplayIgnoresLeftover(cs: seq<Control>, original: seq<byte>, diff: seq<byte>, extra: seq<byte>,
                                                 s: Cursors, moreDiff: seq<byte>, moreExtra: seq<byte>)
    requires ReplayFrom(cs, original, diff, extra, s).Ok?
    ensures ReplayFrom(cs, original, diff + moreDiff, extra + moreExtra, s) == ReplayFrom(cs, original, diff, extra, s)
    decreases |cs|
  {
    if cs != [] {
      ReplayFirst(cs, original, diff, extra, s);
      StepIgnoresLeftover(cs[0], original, diff, extra, s, moreDiff, moreExtra);
      var first := Step(cs[0], original, diff, extra, s).value;
      ReplayIgnoresLeftover(cs[1..], original, diff, extra, first.cursors, moreDiff, moreExtra);
    }
  }

  /** `new_size` only sizes the output's initial capacity. */
  lemma NewSizeIgnored(p: Patch, original: seq<byte>, newSize: Length)
    ensures Reconstruct(p.(newSize := newSize), original) == Reconstruct(p, original)
  {
  }

  /** n zero bytes. */
  function Zeros(n: nat): (r: seq<byte>)
    ensures |r| == n && forall k :: 0 <= k < n ==> r[k] == 0
  {
    seq(n, _ => 0)
  }

  /** Adding zero bytes modulo 256 changes nothing. */
  lemma {:induction false} AddZeros(a: seq<byte>)
    ensures AddBytes(a, Zeros(|a|)) == a
  {
    if |a| > 0 {
      AddZeros(a[1..]);
      assert Zeros(|a|)[1..] == Zeros(|a| - 1);
    }
  }

  /** The identity patch: one control copying the whole original with an
      all-zero diff and no extra bytes reconstructs the original. */
  lemma IdentityPatch(original: seq<byte>)
    requires |original| <= I64_MAX
    ensures Reconstruct(Patch(|original|, [Control(|original|, 0, 0)], Zeros(|original|), []), original)
              == Ok(original)
  {
    var n := |original|;
    var zeros := Zeros(n);
    var cs := [Control(n, 0, 0)];
    AddZeros(original);
    assert RemainingAt(original, 0)[..n] == original;
    assert zeros[0..n] == zeros;
    var empty: seq<byte> := [];
    assert empty[0..0] == [];
    StepValue(cs[0], original, zeros, empty, Cursors(0, 0, 0));
    var step := Step(cs[0], original, zeros, empty, Cursors(0, 0, 0));
    assert AddBytes(original, zeros) == original;
    assert original + [] == original;
    assert step == Ok(Replayed(original, Cursors(n, n, 0)));
    assert cs[1..] == [];
    assert ReplayFrom(cs, original, zeros, empty, Cursors(0, 0, 0)) == Ok(Replayed(original, Cursors(n, n, 0)));
  }

  /** Result of the remaining controls, after the output produced so far. */
  function Combine(done: seq<byte>, r: Result<Replayed>): Result<Replayed> {
    if r.Ok? then Ok(Replayed(done + r.value.output, r.value.cursors)) else r
  }

  /** The value of a step whose checks all pass. */
  lemma StepValue(c: Control, original: seq<byte>, diff: seq<byte>, extra: seq<byte>, s: Cursors)
    requires c.diffAmount <= |RemainingAt(original, s.pos)|
    requires s.diffPos + c.diffAmount <= |diff| && s.extraPos + c.extraAmount <= |extra|
    requires 0 <= s.pos + c.diffAmount + c.seek <= U64_MAX
    ensures Step(c, original, diff, extra, s) == Ok(Replayed(
      AddBytes(RemainingAt(original, s.pos)[..c.diffAmount], diff[s.diffPos..s.diffPos + c.diffAmount])
        + extra[s.extraPos..s.extraPos + c.extraAmount],
      Cursors(s.pos + c.diffAmount + c.seek, s.diffPos + c.diffAmount, s.extraPos + c.extraAmount)))
  {
  }

  /** Replaying cs[i..] after `done` is running control i, then the rest. */
  lemma CombineStep(cs: seq<Control>, i: nat, original: seq<byte>, diff: seq<byte>, extra: seq<byte>,
                    s: Cursors, done: seq<byte>)
    requires i < |cs|
    ensures var step := Step(cs[i], original, diff, extra, s);
      Combine(done, ReplayFrom(cs[i..], original, diff, extra, s)) ==
        if step.Err? then Err(step.error)
        else Combine(done + step.value.output, ReplayFrom(cs[i + 1..], original, diff, extra, step.value.cursors))
  {
    assert cs[i..][1..] == cs[i + 1..];
    var step := Step(cs[i], original, diff, extra, s);
    if step.Ok? {
      var later := ReplayFrom(cs[i + 1..], original, diff, extra, step.value.cursors);
      if later.Ok? {
        assert (done + step.value.output) + later.value.output == done + (step.value.output + later.value.output);
      }
    }
  }

  /** The `izip!` loop of `apply`: adds the diff chunk into the copied chunk in
      place, modulo 256, over the length of the shorter of the two. */
  method AddDiffInPlace(chunk: array<byte>, diffChunk: seq<byte>)
    modifies chunk
    ensures forall k :: 0 <= k < chunk.Length ==>
      chunk[k] == if k < |diffChunk| then WrappingAdd(old(chunk[k]), diffChunk[k]) else old(chunk[k])
  {
    var n := Min(chunk.Length, |diffChunk|);
    for k := 0 to n
      invariant forall j :: 0 <= j < k ==> chunk[j] == WrappingAdd(old(chunk[j]), diffChunk[j])
      invariant forall j :: k <= j < chunk.Length ==> chunk[j] == old(chunk[j])
    {
      chunk[k] := WrappingAdd(chunk[k], diffChunk[k]);
    }
  }

  /** `new_chunk` after the `izip!` loop, when both chunks were copied in full. */
  method AddDiff(newChunk: seq<byte>, diffChunk: seq<byte>) returns (added: seq<byte>)
    requires |newChunk| == |diffChunk|
    ensures added == AddBytes(newChunk, diffChunk)
  {
    var chunk := new byte[|newChunk|](k requires 0 <= k < |newChunk| => newChunk[k]);
    AddDiffInPlace(chunk, diffChunk);
    AddBytesAt(newChunk, diffChunk);
    added := chunk[..];
  }

  /** One iteration of the loop of `Bsdiff4::apply` on the three streams: it
      behaves as `Step` from the streams' current positions, and on success
      leaves them where `Step` says. */
  method ApplyControl(control: Control, original: Cursor, diff: Cursor, extra: Cursor)
    returns (r: Result<seq<byte>>)
    requires original != diff && original != extra && diff != extra
    requires diff.pos <= |diff.data| && extra.pos <= |extra.data|
    modifies original, diff, extra
    ensures var step := Step(control, original.data, diff.data, extra.data,
                             Cursors(old(original.pos), old(diff.pos), old(extra.pos)));
      && (step.Err? ==> r == Err(step.error))
      && (step.Ok? ==> r == Ok(step.value.output)
                       && step.value.cursors == Cursors(original.pos, diff.pos, extra.pos))
  {
    ghost var s := Cursors(original.pos, diff.pos, extra.pos);
    ghost var step := Step(control, original.data, diff.data, extra.data, s);
    assert original.Remaining() == RemainingAt(original.data, s.pos);
    var newChunk, copiedOriginal := CopyExact(original, control.diffAmount);
    if !copiedOriginal {
      assert step == Err(OriginalExhausted);
      return Err(OriginalExhausted);
    }
    var diffChunk, copiedDiff := CopyExact(diff, control.diffAmount);
    if !copiedDiff {
      assert step == Err(DiffExhausted);
      return Err(DiffExhausted);
    }
    assert diffChunk == diff.data[s.diffPos..s.diffPos + control.diffAmount];
    var added := AddDiff(newChunk, diffChunk);
    var extraChunk, copiedExtra := CopyExact(extra, control.extraAmount);
    if !copiedExtra {
      assert step == Err(ExtraExhausted);
      return Err(ExtraExhausted);
    }
    assert extraChunk == extra.data[s.extraPos..s.extraPos + control.extraAmount];
    var sought := original.Seek(control.seek);
    if !sought {
      assert step == Err(InvalidSeek);
      return Err(InvalidSeek);
    }
    StepValue(control, original.data, diff.data, extra.data, s);
    r := Ok(added + extraChunk);
  }

  /** `Bsdiff4::apply` with the original behind a `Cursor`: the output is what
      `ReplayFrom` yields from the original's current position, and on
      success the original's cursor ends where the replay leaves it. */
  method Apply(p: Patch, original: Cursor) returns (r: Result<seq<byte>>)
    modifies original
    ensures var spec := ReplayFrom(p.control, original.data, p.diff, p.extra, Cursors(old(original.pos), 0, 0));
      && (spec.Ok? ==> r == Ok(spec.value.output) && original.pos == spec.value.cursors.pos)
      && (spec.Err? ==> r == Err(spec.error))
  {
    ghost var spec := ReplayFrom(p.control, original.data, p.diff, p.extra, Cursors(original.pos, 0, 0));
    var diff := new Cursor(p.diff);
    var extra := new Cursor(p.extra);
    var output: seq<byte> := [];
    assert spec.Ok? ==> [] + spec.value.output == spec.value.output;
    assert p.control[0..] == p.control;
    for i := 0 to |p.control|
      invariant diff != original && extra != original && diff != extra
      invariant diff.data == p.diff && extra.data == p.extra
      invariant diff.pos <= |p.diff| && extra.pos <= |p.extra|
      invariant Combine(output, ReplayFrom(p.control[i..], original.data, p.diff, p.extra,
                                           Cursors(original.pos, diff.pos, extra.pos))) == spec
    {
      CombineStep(p.control, i, original.data, p.diff, p.extra, Cursors(original.pos, diff.pos, extra.pos), output);
      var piece := ApplyControl(p.control[i], original, diff, extra);
      if piece.Err? {
        return Err(piece.error);
      }
      output := output + piece.value;
    }
    assert output + [] == output;
    return Ok(output);
  }

  /** `Bsdiff4::apply_to_slice`: the patch applied to a whole original buffer.
      `new_size` only sizes the output's initial capacity. */
  method ApplyToSlice(p: Patch, original: seq<byte>) returns (r: Result<seq<byte>>)
    ensures r == Reconstruct(p, original)
  {
    var cursor := new Cursor(original);
    r := Apply(p, cursor);
  }
}
