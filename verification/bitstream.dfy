/**
 * The bit order of GIF's LZW data (Appendix F of the GIF89a
 * specification): codes are packed least significant bit first, starting
 * with the least significant bit of the first byte.
 *
 * A byte sequence is viewed as its stream of bits (each a 0 or a 1);
 * reading `n` bits from position `p` gives the number whose bit `j` is
 * stream bit `p + j`.
 */
module BitStream {
  import opened Common

  function Pow2(n: nat): (r: nat)
    ensures r >= 1
  {
    if n == 0 then 1 else 2 * Pow2(n - 1)
  }

  lemma {:induction false} Pow2Mono(a: nat, b: nat)
    requires a <= b
    ensures Pow2(a) <= Pow2(b)
    decreases b
  {
    if a < b {
      Pow2Mono(a, b - 1);
    }
  }

  /** Bits as a sequence of 0s and 1s. */
  ghost predicate IsBits(bs: seq<nat>)
  {
    forall i :: 0 <= i < |bs| ==> bs[i] <= 1
  }

  function Zeros(n: nat): (bs: seq<nat>)
    ensures |bs| == n && IsBits(bs)
    ensures forall i :: 0 <= i < n ==> bs[i] == 0
  {
    seq(n, i => 0)
  }

  /** The number whose bit `j` is `bs[j]`. */
  function BitsVal(bs: seq<nat>): (v: nat)
    decreases |bs|
  {
    if |bs| == 0 then 0 else bs[0] + 2 * BitsVal(bs[1..])
  }

  lemma {:induction false} BitsValBound(bs: seq<nat>)
    requires IsBits(bs)
    ensures BitsVal(bs) < Pow2(|bs|)
    decreases |bs|
  {
    if |bs| > 0 {
      BitsValBound(bs[1..]);
    }
  }

  /** The low `w` bits of `c`, least significant first. */
  function CodeBits(c: nat, w: nat): (bs: seq<nat>)
    ensures |bs| == w
    decreases w
  {
    if w == 0 then [] else [c % 2] + CodeBits(c / 2, w - 1)
  }

  lemma {:induction false} CodeBitsAreBits(c: nat, w: nat)
    ensures IsBits(CodeBits(c, w))
    decreases w
  {
    if w > 0 {
      CodeBitsAreBits(c / 2, w - 1);
    }
  }

  /** Writing a `w`-bit number out as bits and reading it back gives the number. */
  lemma {:induction false} CodeBitsVal(c: nat, w: nat)
    requires c < Pow2(w)
    ensures BitsVal(CodeBits(c, w)) == c
    decreases w
  {
    if w > 0 {
      assert c / 2 < Pow2(w - 1);
      CodeBitsVal(c / 2, w - 1);
      assert CodeBits(c, w)[1..] == CodeBits(c / 2, w - 1);
    }
  }

  /** Reading bits as a number and writing it back out as `w >= |c|` bits gives the bits, padded with zeros. */
  lemma {:induction false} ValCodeBits(c: seq<nat>, w: nat)
    requires IsBits(c) && |c| <= w
    ensures CodeBits(BitsVal(c), w) == c + Zeros(w - |c|)
    decreases w
  {
    if |c| == 0 {
      ZeroCodeBits(w);
    } else {
      DivModOf(c[0], BitsVal(c[1..]), 2);
      ValCodeBits(c[1..], w - 1);
      assert c == [c[0]] + c[1..];
    }
  }

  lemma {:induction false} ZeroCodeBits(w: nat)
    ensures CodeBits(0, w) == Zeros(w)
    decreases w
  {
    if w > 0 {
      ZeroCodeBits(w - 1);
    }
  }

  /** `v` shifted right by `n` bits. */
  function Shr(v: nat, n: nat): (r: nat)
    decreases n
  {
    if n == 0 then v else Shr(v / 2, n - 1)
  }

  /** The eight bits of a byte, least significant first. */
  function ByteBits(x: nat): (bs: seq<nat>)
    ensures |bs| == 8
  {
    seq(8, j requires 0 <= j < 8 => Shr(x, j) % 2)
  }

  /** Bit `j` of a `w`-bit code is the code shifted right by `j`, mod 2. */
  lemma {:induction false} CodeBitsAt(c: nat, w: nat, j: nat)
    requires j < w
    ensures CodeBits(c, w)[j] == Shr(c, j) % 2
    decreases j
  {
    if j > 0 {
      CodeBitsAt(c / 2, w - 1, j - 1);
    }
  }

  lemma ByteBitsAreCode(x: nat)
    ensures ByteBits(x) == CodeBits(x, 8)
  {
    forall j | 0 <= j < 8
      ensures ByteBits(x)[j] == CodeBits(x, 8)[j]
    {
      CodeBitsAt(x, 8, j);
    }
  }

  /** The bit stream of a byte sequence: eight bits per byte, least significant first. */
  function Bits(data: seq<Uint8>): (bs: seq<nat>)
    ensures |bs| == 8 * |data| && IsBits(bs)
    decreases |data|
  {
    if |data| == 0 then [] else ByteBits(data[0]) + Bits(data[1..])
  }

  /** Stream bits `8b .. 8b + 7` are the bits of byte `b`. */
  lemma {:induction false} BitsOfByte(data: seq<Uint8>, b: nat)
    requires b < |data|
    ensures Bits(data)[8 * b..8 * b + 8] == ByteBits(data[b])
    decreases b
  {
    if b > 0 {
      BitsOfByte(data[1..], b - 1);
      assert Bits(data)[8 * b..8 * b + 8] == Bits(data[1..])[8 * (b - 1)..8 * (b - 1) + 8];
    }
  }

  /** The `n`-bit number whose bit `j` is stream bit `p + j`. */
  function StreamVal(bs: seq<nat>, p: nat, n: nat): (v: nat)
    requires p + n <= |bs|
    decreases n
  {
    if n == 0 then 0 else bs[p] + 2 * StreamVal(bs, p + 1, n - 1)
  }

  /** Reading `n` bits from `p` is the value of the slice `bs[p .. p + n]`. */
  lemma {:induction false} StreamIsSlice(bs: seq<nat>, p: nat, n: nat)
    requires p + n <= |bs|
    ensures StreamVal(bs, p, n) == BitsVal(bs[p..p + n])
    decreases n
  {
    if n > 0 {
      StreamIsSlice(bs, p + 1, n - 1);
      assert bs[p..p + n][1..] == bs[p + 1..p + n];
    }
  }

  /** An `n`-bit read is below `2^n`. */
  lemma StreamValBound(bs: seq<nat>, p: nat, n: nat)
    requires IsBits(bs) && p + n <= |bs|
    ensures StreamVal(bs, p, n) < Pow2(n)
  {
    StreamIsSlice(bs, p, n);
    BitsValBound(bs[p..p + n]);
  }

  /** Bits past the end of the ones read do not matter. */
  lemma StreamPrefix(bs: seq<nat>, tail: seq<nat>, p: nat, n: nat)
    requires p + n <= |bs|
    ensures StreamVal(bs + tail, p, n) == StreamVal(bs, p, n)
  {
    StreamIsSlice(bs + tail, p, n);
    StreamIsSlice(bs, p, n);
    assert (bs + tail)[p..p + n] == bs[p..p + n];
  }

  /** Bits before the ones read do not matter either. */
  lemma {:induction false} StreamShift(a: seq<nat>, b: seq<nat>, p: nat, n: nat)
    requires p + n <= |b|
    ensures StreamVal(a + b, |a| + p, n) == StreamVal(b, p, n)
    decreases n
  {
    if n > 0 {
      StreamShift(a, b, p + 1, n - 1);
      assert |a| + p + 1 == |a| + (p + 1);
    }
  }

  /** A `w`-bit code written out as bits, in the middle of a stream, reads back as the code. */
  lemma ReadCodeBits(a: seq<nat>, c: nat, w: nat, rest: seq<nat>)
    requires c < Pow2(w)
    ensures |a| + w <= |a + CodeBits(c, w) + rest|
    ensures StreamVal(a + CodeBits(c, w) + rest, |a|, w) == c
  {
    StreamPrefix(a + CodeBits(c, w), rest, |a|, w);
    StreamShift(a, CodeBits(c, w), 0, w);
    StreamIsSlice(CodeBits(c, w), 0, w);
    assert CodeBits(c, w)[0..w] == CodeBits(c, w);
    CodeBitsVal(c, w);
  }

  /** Eight bits from a byte boundary are that byte. */
  lemma StreamByte(data: seq<Uint8>, k: nat, b: nat)
    requires b < |data| && k == 8 * b
    ensures StreamVal(Bits(data), k, 8) == data[b]
  {
    StreamIsSlice(Bits(data), k, 8);
    BitsOfByte(data, b);
    ByteBitsAreCode(data[b]);
    assert Pow2(8) == 256;
    CodeBitsVal(data[b], 8);
  }

  /** `v` shifted left by `n` bits. */
  function Shl(v: nat, n: nat): (r: nat)
    decreases n
  {
    if n == 0 then v else 2 * Shl(v, n - 1)
  }

  /** The low `n` bits of `v`. */
  function Low(v: nat, n: nat): (r: nat)
    decreases n
  {
    if n == 0 then 0 else v % 2 + 2 * Low(v / 2, n - 1)
  }

  /** The first `n + m` bits are the first `n` bits plus the next `m` bits shifted up by `n`. */
  lemma {:induction false} StreamSplit(bs: seq<nat>, p: nat, n: nat, m: nat)
    requires p + n + m <= |bs|
    ensures StreamVal(bs, p, n + m) == StreamVal(bs, p, n) + Shl(StreamVal(bs, p + n, m), n)
    decreases n
  {
    if n == 0 {
      assert n + m == m && p + n == p;
    } else {
      StreamSplit(bs, p + 1, n - 1, m);
      assert p + 1 + (n - 1) == p + n;
    }
  }

  /** Shifting byte `b` in above `avail` pending bits that end at that byte extends them by its eight bits. */
  lemma LoadByte(data: seq<Uint8>, pos: nat, avail: nat, b: nat)
    requires b < |data| && 8 * b == pos + avail
    ensures StreamVal(Bits(data), pos, avail) + Shl(data[b], avail) == StreamVal(Bits(data), pos, avail + 8)
  {
    StreamSplit(Bits(data), pos, avail, 8);
    StreamByte(data, pos + avail, b);
  }

  /** Halving the value of `a >= 1` stream bits drops the first bit. */
  lemma StreamHalve(bs: seq<nat>, p: nat, a: nat)
    requires IsBits(bs) && 0 < a && p + a <= |bs|
    ensures StreamVal(bs, p, a) / 2 == StreamVal(bs, p + 1, a - 1)
    ensures StreamVal(bs, p, a) % 2 == bs[p]
  {
    DivModOf(bs[p], StreamVal(bs, p + 1, a - 1), 2);
  }

  /** Masking the low `n` of `a` pending bits gives the first `n`; shifting right by `n` leaves the other `a - n`. */
  lemma {:induction false} StreamTake(bs: seq<nat>, p: nat, a: nat, n: nat)
    requires IsBits(bs) && n <= a && p + a <= |bs|
    ensures Low(StreamVal(bs, p, a), n) == StreamVal(bs, p, n)
    ensures Shr(StreamVal(bs, p, a), n) == StreamVal(bs, p + n, a - n)
    decreases n
  {
    if n == 0 {
      assert p + n == p && a - n == a;
    } else {
      StreamHalve(bs, p, a);
      StreamTake(bs, p + 1, a - 1, n - 1);
      assert p + 1 + (n - 1) == p + n && a - 1 - (n - 1) == a - n;
    }
  }

  /** Packs bits into bytes, eight to a byte, least significant bit first; the last byte is padded with zeros. */
  function PackBits(bs: seq<nat>): (data: seq<Uint8>)
    requires IsBits(bs)
    ensures 8 * |data| >= |bs| && |data| == (|bs| + 7) / 8
    decreases |bs|
  {
    if |bs| == 0 then []
    else
      var n := Min(8, |bs|);
      BitsValBound(bs[..n]);
      Pow2Mono(n, 8);
      assert Pow2(8) == 256;
      [BitsVal(bs[..n])] + PackBits(bs[n..])
  }

  /** Unpacking packed bits gives them back, followed by the zero padding. */
  lemma {:induction false} PackBitsRoundTrip(bs: seq<nat>)
    requires IsBits(bs)
    ensures Bits(PackBits(bs)) == bs + Zeros(8 * |PackBits(bs)| - |bs|)
    decreases |bs|
  {
    if |bs| > 0 {
      var n := Min(8, |bs|);
      var head, rest := bs[..n], bs[n..];
      var data := PackBits(bs);
      assert data == [BitsVal(head)] + PackBits(rest);
      PackBitsRoundTrip(rest);
      ValCodeBits(head, 8);
      ByteBitsAreCode(BitsVal(head));
      BitsCons(data);
      assert data[1..] == PackBits(rest);
      PackPieces(head, rest, Bits(PackBits(rest)), 8 * |PackBits(rest)| - |rest|);
    }
  }

  lemma BitsCons(data: seq<Uint8>)
    requires |data| > 0
    ensures Bits(data) == ByteBits(data[0]) + Bits(data[1..])
  {
  }

  /** The arithmetic of the padding in `PackBitsRoundTrip`: a short head is the whole input. */
  lemma PackPieces(head: seq<nat>, rest: seq<nat>, restBits: seq<nat>, pad: nat)
    requires 0 < |head| <= 8 && (|head| < 8 ==> rest == [])
    requires restBits == rest + Zeros(pad)
    requires rest == [] ==> pad == 0
    ensures head + Zeros(8 - |head|) + restBits == head + rest + Zeros(8 - |head| + pad)
  {
  }

  lemma MulMono(m: int, x: int, y: int)
    requires m > 0 && x <= y
    ensures m * x <= m * y
  {
    assert m * y - m * x == m * (y - x);
  }

  lemma DivModOf(a: nat, b: nat, m: nat)
    requires m > 0 && a < m
    ensures (a + m * b) % m == a && (a + m * b) / m == b
  {
    var x := a + m * b;
    var q := x / m;
    var r := x % m;
    assert x == m * q + r;
    if q > b {
      MulMono(m, b + 1, q);
      assert false;
    } else if q < b {
      MulMono(m, q + 1, b);
      assert false;
    }
  }
}
