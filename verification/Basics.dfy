/** Failure-compatible datatypes and the byte type shared by the decoders. */
module Basics {

  type byte = x: int | 0 <= x < 256

  datatype Option<+T> = None | Some(value: T) {
    predicate IsFailure() {
      None?
    }

    function PropagateFailure<U>(): Option<U>
      requires None?
    {
      None
    }

    function Extract(): T
      requires Some?
    {
      value
    }
  }

  /** What a fallible operation returns. The source's error values differ only in
      their message text, so one failure constructor stands for all of them. */
  datatype Result<+T> = Ok(value: T) | Err {
    predicate IsFailure() {
      Err?
    }

    function PropagateFailure<U>(): Result<U>
      requires Err?
    {
      Err
    }

    function Extract(): T
      requires Ok?
    {
      value
    }
  }

  /** Why a result may be incomplete. */
  datatype TruncationReason =
    | MaxDepthReached
    | MaxNodesReached
    | EvidenceUnavailable
    | BoundaryReached
    | RateLimited
    | Cancelled

  /** The result of reading at a position: a value and the position after it. */
  datatype Read<+T> = Got(value: T, next: nat) | Fail {
    predicate IsFailure() {
      Fail?
    }

    function PropagateFailure<U>(): Read<U>
      requires Fail?
    {
      Fail
    }

    function Extract(): (T, nat)
      requires Got?
    {
      (value, next)
    }
  }

  /** Two to the power `e`. */
  function Pow2(e: nat): (r: nat)
    ensures r > 0
  {
    if e == 0 then 1 else 2 * Pow2(e - 1)
  }

  lemma {:induction false} Pow2Grows(a: nat, b: nat)
    requires a <= b
    ensures Pow2(a) <= Pow2(b)
    decreases b
  {
    if a < b {
      Pow2Grows(a, b - 1);
    }
  }

  lemma PowersOfTwo()
    ensures Pow2(4) == 16 && Pow2(7) == 128 && Pow2(32) == 0x1_0000_0000
  {
    assert Pow2(4) == 16;
    assert Pow2(7) == 128;
    assert Pow2(12) == 0x1000;
    assert Pow2(17) == 0x2_0000;
    assert Pow2(22) == 0x40_0000;
    assert Pow2(27) == 0x800_0000;
  }

  /** Bitwise or of two natural numbers, one binary digit at a time. */
  function BitOr(a: nat, b: nat): nat {
    if a == 0 then b
    else if b == 0 then a
    else (if a % 2 == 1 || b % 2 == 1 then 1 else 0) + 2 * BitOr(a / 2, b / 2)
  }

  /** `v << shift` before any truncation to a machine width. */
  function ShiftLeft(v: nat, shift: nat): nat {
    if shift == 0 then v else 2 * ShiftLeft(v, shift - 1)
  }

  lemma {:induction false} ShiftLeftSum(a: nat, b: nat, shift: nat)
    ensures ShiftLeft(a + b, shift) == ShiftLeft(a, shift) + ShiftLeft(b, shift)
  {
    if shift != 0 {
      ShiftLeftSum(a, b, shift - 1);
    }
  }

  lemma {:induction false} ShiftLeftTwice(v: nat, first: nat, shift: nat)
    ensures ShiftLeft(ShiftLeft(v, first), shift) == ShiftLeft(v, first + shift)
  {
    if shift != 0 {
      ShiftLeftTwice(v, first, shift - 1);
    }
  }

  /** A value of at most `bits` bits, shifted, has at most `bits + shift` bits. */
  lemma {:induction false} ShiftLeftBound(v: nat, bits: nat, shift: nat)
    requires v < Pow2(bits)
    ensures ShiftLeft(v, shift) <= Pow2(bits + shift) - Pow2(shift)
  {
    if shift != 0 {
      ShiftLeftBound(v, bits, shift - 1);
    }
  }

  /** Or-ing a value shifted past every bit of `low` adds it. */
  lemma {:induction false} OrDisjoint(low: nat, high: nat, shift: nat)
    requires low < Pow2(shift)
    ensures BitOr(low, ShiftLeft(high, shift)) == low + ShiftLeft(high, shift)
  {
    if shift != 0 && low != 0 && ShiftLeft(high, shift) != 0 {
      OrDisjoint(low / 2, high, shift - 1);
    }
  }

  /** `e` occurs in `b` at `p`. */
  ghost predicate Occurs(b: seq<byte>, p: nat, e: seq<byte>) {
    p + |e| <= |b| && b[p..p + |e|] == e
  }

  lemma OccursNothing(b: seq<byte>, p: nat)
    requires p <= |b|
    ensures Occurs(b, p, [])
  {
  }

  lemma OccursSplit(b: seq<byte>, p: nat, first: seq<byte>, second: seq<byte>)
    ensures Occurs(b, p, first + second) <==> Occurs(b, p, first) && Occurs(b, p + |first|, second)
  {
    if Occurs(b, p, first + second) {
      var whole := b[p..p + |first + second|];
      assert b[p..p + |first|] == whole[..|first|] == first;
      assert b[p + |first|..p + |first| + |second|] == whole[|first|..] == second;
    }
    if Occurs(b, p, first) && Occurs(b, p + |first|, second) {
      assert b[p..p + |first + second|] == b[p..p + |first|] + b[p + |first|..p + |first| + |second|];
    }
  }

  lemma OccursInItself(first: seq<byte>, second: seq<byte>)
    ensures Occurs(first + second, 0, first) && Occurs(first + second, |first|, second)
  {
    var whole := first + second;
    assert whole[0..|whole|] == whole;
    OccursSplit(whole, 0, first, second);
  }
}
