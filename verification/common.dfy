/**
 * Shared vocabulary: optional values, results, the C integer widths the
 * framework relies on, C++ integer division (which truncates toward
 * zero, unlike Dafny's Euclidean `/`), and what a scroll bar makes of a
 * button event its owner passes to it.
 */
module Common {

  datatype Option<T> = None | Some(value: T)
  {
    predicate IsSome() { this.Some? }

    function GetOr(default: T): (r: T)
      ensures this.Some? ==> r == this.value
      ensures this.None? ==> r == default
    {
      match this
      case Some(v) => v
      case None => default
    }
  }

  datatype Result<T, E> = Ok(value: T) | Err(error: E)

  /**
   * What a scroll bar does with a button event its owner passes to it
   * (ScrollBar.cpp:99-134). `BarOnly`: a press on the thumb, a release, or
   * a track press on a bar whose thumb has no room to move; only the bar
   * itself changes. `TrackJump`: a press on the track away from the thumb;
   * the thumb jumps under the mouse and the bar's change callback receives
   * a value whose truncation to `int` is `offset`. Every owner sets the
   * bar's minimum to 0 and the bar clamps its value to its range, so the
   * offset is a `nat`; how it follows from the mouse position is floating
   * point and is the caller's to give.
   */
  datatype BarResponse = BarOnly | TrackJump(offset: nat)

  /** An 8-bit unsigned byte. */
  type Uint8 = x: int | 0 <= x < 256

  /** A 32-bit unsigned word (one ARGB pixel). */
  type Uint32 = x: int | 0 <= x < 0x1_0000_0000

  const INT32_MAX: int := 0x7FFF_FFFF

  /**
   * The value an `int` field holds after a `uint32_t` is assigned to it:
   * two's-complement reinterpretation.
   */
  function ToInt32(v: Uint32): (r: int)
    ensures -0x8000_0000 <= r <= INT32_MAX
    ensures (r + 0x1_0000_0000) % 0x1_0000_0000 == v
    ensures r >= 0 <==> v <= INT32_MAX
  {
    if v <= INT32_MAX then v else v - 0x1_0000_0000
  }

  /** C++ `a / b` on `int`: the quotient truncated toward zero. */
  function CDiv(a: int, b: int): (q: int)
    requires b != 0
    ensures a >= 0 && b > 0 ==> q == a / b
    ensures (a >= 0 && b > 0) || (a <= 0 && b < 0) ==> q >= 0
    ensures Abs(q * b) <= Abs(a) < Abs(q * b) + Abs(b)
  {
    var m := Abs(a) / Abs(b);
    var q := if (a >= 0) == (b > 0) then m else -m;
    TruncBand(a, b, m, q);
    q
  }

  /** The truncated quotient's product with the divisor is within one divisor of the dividend. */
  lemma TruncBand(a: int, b: int, m: int, q: int)
    requires b != 0 && m == Abs(a) / Abs(b) && q == (if (a >= 0) == (b > 0) then m else -m)
    ensures a >= 0 && b > 0 ==> q == a / b
    ensures (a >= 0 && b > 0) || (a <= 0 && b < 0) ==> q >= 0
    ensures Abs(q * b) <= Abs(a) < Abs(q * b) + Abs(b)
  {
    var x, y := Abs(a), Abs(b);
    assert x == y * m + x % y && 0 <= x % y < y;
    assert m >= 0 by {
      MulSign(m, y);
    }
    MulAbs(q, b);
    assert Abs(q) == m;
    assert Abs(q * b) == m * y == y * m;
  }

  /** The magnitude of a product. */
  lemma MulAbs(x: int, y: int)
    ensures Abs(x * y) == Abs(x) * Abs(y)
  {
    if x < 0 {
      assert x * y == -((-x) * y);
    }
    if y < 0 {
      assert Abs(x) * y == -(Abs(x) * (-y));
    }
  }

  function Abs(a: int): (r: nat)
    ensures r == a || r == -a
  {
    if a < 0 then -a else a
  }

  function Min(a: int, b: int): (r: int)
    ensures r <= a && r <= b && (r == a || r == b)
  {
    if a <= b then a else b
  }

  function Max(a: int, b: int): (r: int)
    ensures r >= a && r >= b && (r == a || r == b)
  {
    if a >= b then a else b
  }

  /** Sum of a sequence of integers. */
  function Sum(s: seq<int>): int
  {
    if |s| == 0 then 0 else Sum(s[..|s| - 1]) + s[|s| - 1]
  }

  /** A sequence of `n` copies of `v`. */
  function Repeat<T>(v: T, n: nat): (r: seq<T>)
    ensures |r| == n
    ensures forall i :: 0 <= i < n ==> r[i] == v
  {
    seq(n, _ => v)
  }

  lemma AppendAssoc<T>(a: seq<T>, b: seq<T>, c: seq<T>)
    ensures a + (b + c) == a + b + c
  {
  }

  /** The sequence with the element at index `i` removed (C++ `erase`). */
  function RemoveAt<T>(s: seq<T>, i: nat): (r: seq<T>)
    requires i < |s|
    ensures |r| == |s| - 1
    ensures forall j :: 0 <= j < i ==> r[j] == s[j]
    ensures forall j :: i <= j < |r| ==> r[j] == s[j + 1]
  {
    s[..i] + s[i + 1..]
  }

  /** The sequence with `v` inserted before index `i` (C++ `insert`). */
  function InsertAt<T>(s: seq<T>, i: nat, v: T): (r: seq<T>)
    requires i <= |s|
    ensures |r| == |s| + 1
    ensures r[i] == v
    ensures forall j :: 0 <= j < i ==> r[j] == s[j]
    ensures forall j :: i < j < |r| ==> r[j] == s[j - 1]
  {
    s[..i] + [v] + s[i..]
  }

  /** For a >= 0 and w > 0, the truncating quotient of a by w is q exactly when w*q <= a < w*(q+1). */
  lemma {:induction false} DivBand(a: int, w: int, q: int)
    requires a >= 0 && w > 0
    ensures CDiv(a, w) == q <==> w * q <= a < w * (q + 1)
  {
    var d, m := a / w, a % w;
    assert a == w * d + m && 0 <= m < w;
    assert w * (d + 1) == w * d + w;
    if w * q <= a < w * (q + 1) {
      var k := q - d;
      assert w * q == w * d + w * k;
      assert w * (q + 1) == w * q + w;
      MulSign(k, w);
    }
  }

  /** The product of two naturals is one; stated apart so that larger proofs need not rediscover it. */
  lemma MulNat(a: nat, b: nat)
    ensures a * b >= 0
  {
  }

  lemma MulSign(k: int, w: int)
    requires w > 0
    ensures k >= 1 ==> w * k >= w
    ensures k <= -1 ==> w * k <= -w
  {
  }
}
