/**
 * A reference LZW decoder for GIF, written over code sequences the way
 * Appendix F of the GIF89a specification describes it: the dictionary is
 * a list of strings indexed by code, the previous code is remembered as
 * its string, and the code width is the number of bits needed to write
 * the dictionary's size, capped at 12. Its encoder side packs each code
 * at that width.
 *
 * The table decoder of `Lzw` (a 4096-slot table that keeps stale slots
 * across clears, a previous code, and a width bumped after each code)
 * agrees with it on every code sequence the reference accepts, including
 * dictionary growth, the code-equal-to-next case and code widening.
 */
module LzwReference {
  import opened Common
  import opened BitStream
  import opened Lzw

  /** The number of bits needed to write `n`. */
  function BitLen(n: nat): (k: nat)
    ensures n < Pow2(k)
    ensures n > 0 ==> k >= 1 && Pow2(k - 1) <= n
    decreases n
  {
    if n == 0 then 0 else 1 + BitLen(n / 2)
  }

  /** The code width while the dictionary holds `n` strings. */
  function Width(n: nat): (w: nat)
    ensures w <= MaxCodeSize
  {
    Min(MaxCodeSize, BitLen(n))
  }

  /** The reference decoder's state: the dictionary, the previous string (empty for none), the output. */
  datatype Ref = Ref(dict: seq<seq<Uint8>>, prev: seq<Uint8>, out: seq<Uint8>)

  /** The dictionary after a clear code: one string per root byte, then the clear and end codes, which have none. */
  function Roots(min: nat): (d: seq<seq<Uint8>>)
    ensures |d| == ClearCode(min) + 2
    ensures forall c :: 0 <= c < ClearCode(min) ==> d[c] == [c % 256]
  {
    seq(ClearCode(min) + 2, c => if c < ClearCode(min) then [c % 256] else [])
  }

  function RefInit(min: nat): (r: Ref)
    ensures r.out == [] && r.prev == [] && |r.dict| == ClearCode(min) + 2
  {
    Ref(Roots(min), [], [])
  }

  /**
   * One code other than the end code. `None` for the end code and for a
   * code the standard leaves undefined: one beyond the dictionary, or one
   * equal to its size with no previous string or a full dictionary.
   */
  function RefStep(r: Ref, code: nat, min: nat): (n: Option<Ref>)
    ensures code == EndCode(min) ==> n.None?
    ensures code == ClearCode(min) ==> n == Some(RefInit(min).(out := r.out))
    ensures n.Some? && code != ClearCode(min) ==>
      (code < |r.dict| || code == |r.dict| < TableSize) &&
      n.value.prev != [] && n.value.out == r.out + n.value.prev &&
      |r.dict| <= |n.value.dict| <= |r.dict| + 1
    ensures n.Some? ==> r.out <= n.value.out
  {
    if code == EndCode(min) then None
    else if code == ClearCode(min) then Some(Ref(Roots(min), [], r.out))
    else if code < |r.dict| then
      var w := r.dict[code];
      if w == [] then None
      else if r.prev != [] && |r.dict| < TableSize then Some(Ref(r.dict + [r.prev + [w[0]]], w, r.out + w))
      else Some(Ref(r.dict, w, r.out + w))
    else if code == |r.dict| && r.prev != [] && |r.dict| < TableSize then
      var w := r.prev + [r.prev[0]];
      Some(Ref(r.dict + [w], w, r.out + w))
    else None
  }

  /** The output of a code sequence that ends with the end code; `None` when a code is undefined or the end code is missing. */
  function RefDecode(codes: seq<nat>, min: nat, r: Ref): (o: Option<seq<Uint8>>)
    ensures o.Some? ==> |codes| > 0 && r.out <= o.value
    decreases |codes|
  {
    if |codes| == 0 then None
    else if codes[0] == EndCode(min) then Some(r.out)
    else
      match RefStep(r, codes[0], min)
      case None => None
      case Some(r2) =>
        var o := RefDecode(codes[1..], min, r2);
        assert o.Some? ==> r.out <= o.value by {
          if o.Some? {
            PrefixTrans(r.out, r2.out, o.value);
          }
        }
        o
  }

  /** The encoder side: each code written at the width of the dictionary it is read against, up to the end code. */
  function RefBits(codes: seq<nat>, min: nat, r: Ref): (bs: seq<nat>)
    decreases |codes|
  {
    if |codes| == 0 then []
    else
      CodeBits(codes[0], Width(|r.dict|)) +
        match RefStep(r, codes[0], min)
        case None => []
        case Some(r2) => RefBits(codes[1..], min, r2)
  }

  lemma {:induction false} RefBitsAreBits(codes: seq<nat>, min: nat, r: Ref)
    ensures IsBits(RefBits(codes, min, r))
    decreases |codes|
  {
    if |codes| > 0 {
      CodeBitsAreBits(codes[0], Width(|r.dict|));
      if RefStep(r, codes[0], min).Some? {
        RefBitsAreBits(codes[1..], min, RefStep(r, codes[0], min).value);
      }
    }
  }

  /** A code sequence packed into bytes, LSB first, the last byte padded with zeros. */
  function EncodeCodes(codes: seq<nat>, min: nat): (data: seq<Uint8>)
    ensures 8 * |data| >= |RefBits(codes, min, RefInit(min))|
  {
    RefBitsAreBits(codes, min, RefInit(min));
    PackBits(RefBits(codes, min, RefInit(min)))
  }

  /** The size of the reference dictionary stays between its size after a clear and 4096. */
  ghost predicate RefSized(r: Ref, min: nat)
  {
    2 <= min <= 11 && ClearCode(min) + 2 <= |r.dict| <= TableSize
  }

  lemma RefSizedStep(r: Ref, code: nat, min: nat)
    requires RefSized(r, min) && RefStep(r, code, min).Some?
    ensures RefSized(RefStep(r, code, min).value, min)
  {
    Pow2Small(min);
  }

  /** The width of a size from its bit bounds. */
  lemma {:induction false} BitLenIs(n: nat, k: nat)
    requires k >= 1 && Pow2(k - 1) <= n < Pow2(k)
    ensures BitLen(n) == k
  {
    var j := BitLen(n);
    if j < k {
      Pow2Mono(j, k - 1);
    } else if j > k {
      Pow2Mono(k, j - 1);
    }
  }

  /** Every code the reference accepts, and the end code, fits the width it is written at. */
  lemma CodeFits(r: Ref, code: nat, min: nat)
    requires RefSized(r, min) && (code == EndCode(min) || RefStep(r, code, min).Some?)
    ensures code < Pow2(Width(|r.dict|))
  {
    var n := |r.dict|;
    assert code < n || code == n < TableSize;
    Pow2Small(11);
    assert Pow2(MaxCodeSize) == TableSize by {
      Pow2Small(12);
    }
    if BitLen(n) > MaxCodeSize {
      Pow2Mono(MaxCodeSize, BitLen(n) - 1);
    }
  }

  /** A clear code's dictionary size has width `min + 1`. */
  lemma ClearWidth(min: nat)
    requires 2 <= min <= 11
    ensures Width(ClearCode(min) + 2) == min + 1
  {
    Pow2Mono(2, min);
    assert Pow2(2) == 4;
    BitLenIs(ClearCode(min) + 2, min + 1);
  }

  /** The table decoder's width bump after a code gives the reference width of the new size. */
  lemma WidthStep(n: nat, n2: nat, cs: nat)
    requires 1 <= n <= n2 <= n + 1 && n2 <= TableSize && cs == Width(n)
    ensures (if n2 > Pow2(cs) - 1 && cs < MaxCodeSize then cs + 1 else cs) == Width(n2)
  {
    var k := BitLen(n);
    assert Pow2(MaxCodeSize) == TableSize by {
      Pow2Small(12);
    }
    if k > MaxCodeSize {
      WidthCapped(n, n2);
    } else if n2 > Pow2(cs) - 1 {
      assert n2 == Pow2(k);
      BitLenIs(n2, k + 1);
    } else {
      BitLenIs(n2, k);
    }
  }

  /** Past 4096 strings the width stays at 12 bits. */
  lemma WidthCapped(n: nat, n2: nat)
    requires n <= n2 <= TableSize && BitLen(n) > MaxCodeSize && Pow2(MaxCodeSize) == TableSize
    ensures n2 == TableSize && Width(n) == MaxCodeSize && Width(n2) == MaxCodeSize
  {
    var k := BitLen(n);
    assert Pow2(k - 1) <= n;
    Pow2Mono(MaxCodeSize, k - 1);
    assert n2 == n;
  }

  /** Every defined code reads the same string from the table as from the reference dictionary. */
  ghost predicate Agree(s: State, d: seq<seq<Uint8>>, min: nat)
    requires |s.table| == TableSize
  {
    forall c :: 0 <= c < |d| && c < TableSize && c != ClearCode(min) && c != EndCode(min) ==> Entry(s, min, c) == d[c]
  }

  /** The table decoder's state mirrors the reference's, the code width aside. */
  ghost predicate Mirror(s: State, r: Ref, min: nat)
  {
    RefSized(r, min) && Valid(s, min) && s.next == |r.dict| && s.out == r.out &&
    (if r.prev == [] then s.prev == -1
     else 0 <= s.prev < s.next && s.prev != ClearCode(min) && s.prev != EndCode(min) && Entry(s, min, s.prev) == r.prev) &&
    Agree(s, r.dict, min)
  }

  /** The table decoder's state mirrors the reference's, code width included. */
  ghost predicate Couple(s: State, r: Ref, min: nat)
  {
    Mirror(s, r, min) && s.codeSize == Width(|r.dict|)
  }

  lemma CoupleInit(min: nat)
    requires 2 <= min <= 11
    ensures Couple(Init(min), RefInit(min), min)
  {
    var s, r := Init(min), RefInit(min);
    AgreeRoots(s, min);
    assert RefSized(r, min) by {
      Pow2Small(min);
    }
    assert s.codeSize == Width(|r.dict|) by {
      ClearWidth(min);
    }
  }

  /** A root code reads as its byte from the table and from the dictionary after a clear. */
  lemma RootEntry(s: State, d: seq<seq<Uint8>>, min: nat, c: nat)
    requires |s.table| == TableSize && d == Roots(min)
    requires c < |d| && c < TableSize && c != ClearCode(min) && c != EndCode(min)
    ensures Entry(s, min, c) == d[c]
  {
    assert c < ClearCode(min);
  }

  /** A clear code resets both decoders alike. */
  lemma ClearCouples(s: State, r: Ref, min: nat)
    requires Valid(s, min) && RefSized(r, min) && s.codeSize == Width(|r.dict|) && s.out == r.out
    ensures ClearCode(min) < Pow2(s.codeSize)
    ensures Step(s, ClearCode(min), min).Go? && Couple(Step(s, ClearCode(min), min).s, RefStep(r, ClearCode(min), min).value, min)
  {
    CodeFits(r, ClearCode(min), min);
    var t := s.(next := ClearCode(min) + 2, codeSize := min + 1, prev := -1);
    StepClear(s, min);
    var r2 := Ref(Roots(min), [], r.out);
    assert RefStep(r, ClearCode(min), min) == Some(r2);
    ClearState(s, t, r2, min);
  }

  /** The states right after a clear code are coupled. */
  lemma ClearState(s: State, t: State, r2: Ref, min: nat)
    requires Valid(s, min) && 2 <= min <= 11 && t == s.(next := ClearCode(min) + 2, codeSize := min + 1, prev := -1)
    requires r2 == Ref(Roots(min), [], s.out) && Valid(t, min)
    ensures Couple(t, r2, min)
  {
    AgreeRoots(t, min);
    assert RefSized(r2, min) by {
      Pow2Small(min);
    }
    assert t.codeSize == Width(|r2.dict|) by {
      ClearWidth(min);
    }
    CoupleOf(t, r2, min);
  }

  /** Right after a clear code only the roots are defined, and the table reads them as the dictionary does. */
  lemma AgreeRoots(t: State, min: nat)
    requires |t.table| == TableSize
    ensures Agree(t, Roots(min), min)
  {
    var d := Roots(min);
    forall c | 0 <= c < |d| && c < TableSize && c != ClearCode(min) && c != EndCode(min)
      ensures Entry(t, min, c) == d[c]
    {
      RootEntry(t, d, min, c);
    }
  }

  /** The parts of the coupling, put together. */
  lemma CoupleOf(s: State, r: Ref, min: nat)
    requires RefSized(r, min) && Valid(s, min) && s.next == |r.dict| && s.out == r.out
    requires r.prev == [] && s.prev == -1 && Agree(s, r.dict, min) && s.codeSize == Width(|r.dict|)
    ensures Couple(s, r, min)
  {
  }

  /** The clear code resets `next`, the width and the previous code. */
  lemma StepClear(s: State, min: nat)
    requires Valid(s, min) && ClearCode(min) < Pow2(s.codeSize)
    ensures Step(s, ClearCode(min), min) == Go(s.(next := ClearCode(min) + 2, codeSize := min + 1, prev := -1))
  {
  }

  /** Writing the reference's new string at `next` keeps the table in agreement with the grown dictionary. */
  lemma AgreeExtend(s: State, t: State, d: seq<seq<Uint8>>, e: seq<Uint8>, min: nat)
    requires |s.table| == TableSize && ClearCode(min) + 2 <= |d| < TableSize
    requires t.table == s.table[|d| := e] && Agree(s, d, min)
    ensures Agree(t, d + [e], min)
  {
    forall c | 0 <= c < |d| + 1 && c < TableSize && c != ClearCode(min) && c != EndCode(min)
      ensures Entry(t, min, c) == (d + [e])[c]
    {
      if c < |d| {
        assert Entry(s, min, c) == d[c];
      }
    }
  }

  /** Without a new entry the table and the dictionary still agree. */
  lemma AgreeSame(s: State, t: State, d: seq<seq<Uint8>>, min: nat)
    requires |s.table| == TableSize && t.table == s.table && Agree(s, d, min)
    ensures Agree(t, d, min)
  {
    forall c | 0 <= c < |d| && c < TableSize && c != ClearCode(min) && c != EndCode(min)
      ensures Entry(t, min, c) == d[c]
    {
      assert Entry(s, min, c) == d[c];
    }
  }

  /** Widening the code after a step keeps the mirror and matches the reference width. */
  lemma GrowCouples(s: State, k: State, r: Ref, min: nat)
    requires Valid(s, min) && Mirror(k, r, min) && s.codeSize == Width(s.next)
    requires k.codeSize == s.codeSize && 1 <= s.next <= k.next <= s.next + 1
    ensures Couple(Grow(k, min), r, min)
  {
    var g := Grow(k, min);
    AgreeSame(k, g, r.dict, min);
    if r.prev != [] {
      assert Entry(g, min, g.prev) == Entry(k, min, k.prev);
    }
    WidthStep(s.next, k.next, s.codeSize);
  }

  /** With no previous string or a full dictionary, a code in the dictionary only emits its string. */
  lemma StepKnown(s: State, code: nat, min: nat)
    requires Valid(s, min) && code < s.next && code < Pow2(s.codeSize) && code != ClearCode(min) && code != EndCode(min)
    ensures Step(s, code, min) == Go(Grow(Known(s, min, code), min))
  {
  }

  /** A code in the dictionary: both decoders emit its string and add the same entry. */
  lemma KnownMirrors(s: State, r: Ref, code: nat, min: nat)
    requires Couple(s, r, min) && code != ClearCode(min) && code < |r.dict| && RefStep(r, code, min).Some?
    requires code < Pow2(s.codeSize)
    ensures Mirror(Known(s, min, code), RefStep(r, code, min).value, min)
  {
    var r2 := RefStep(r, code, min).value;
    var k := Known(s, min, code);
    assert Entry(s, min, code) == r.dict[code];
    if r.prev != [] && |r.dict| < TableSize {
      AgreeExtend(s, k, r.dict, r.prev + [r.dict[code][0]], min);
    } else {
      AgreeSame(s, k, r.dict, min);
    }
    assert Entry(k, min, code) == r2.prev;
    RefSizedStep(r, code, min);
  }

  lemma KnownCouples(s: State, r: Ref, code: nat, min: nat)
    requires Couple(s, r, min) && code != ClearCode(min) && code < |r.dict| && RefStep(r, code, min).Some?
    ensures code < Pow2(s.codeSize)
    ensures Step(s, code, min).Go? && Couple(Step(s, code, min).s, RefStep(r, code, min).value, min)
  {
    CodeFits(r, code, min);
    StepKnown(s, code, min);
    KnownMirrors(s, r, code, min);
    GrowCouples(s, Known(s, min, code), RefStep(r, code, min).value, min);
  }

  /** The code equal to the dictionary's size: both decoders define and emit prev's string plus its first byte. */
  lemma DefineCouples(s: State, r: Ref, code: nat, min: nat)
    requires Couple(s, r, min) && code == |r.dict| && RefStep(r, code, min).Some?
    ensures code < Pow2(s.codeSize)
    ensures Step(s, code, min).Go? && Couple(Step(s, code, min).s, RefStep(r, code, min).value, min)
  {
    CodeFits(r, code, min);
    StepDefine(s, code, min);
    DefineMirrors(s, r, code, min);
    GrowCouples(s, Define(s, min, code), RefStep(r, code, min).value, min);
  }

  /** A code equal to `next` after a code with a non-empty string defines a new entry. */
  lemma StepDefine(s: State, code: nat, min: nat)
    requires Valid(s, min) && code == s.next && s.next < TableSize && 0 <= s.prev && Entry(s, min, s.prev) != []
    requires code < Pow2(s.codeSize) && code != ClearCode(min) && code != EndCode(min)
    ensures Step(s, code, min) == Go(Grow(Define(s, min, code), min))
  {
  }

  lemma DefineMirrors(s: State, r: Ref, code: nat, min: nat)
    requires Couple(s, r, min) && code == |r.dict| && RefStep(r, code, min).Some?
    requires code < TableSize && 0 <= s.prev && Entry(s, min, s.prev) != []
    ensures Mirror(Define(s, min, code), RefStep(r, code, min).value, min)
  {
    Pow2Small(min);
    var r2 := RefStep(r, code, min).value;
    var k := Define(s, min, code);
    AgreeExtend(s, k, r.dict, r2.prev, min);
    assert Entry(k, min, code) == r2.prev;
    RefSizedStep(r, code, min);
  }

  /** Any code the reference accepts takes the coupled table decoder to a coupled state. */
  lemma StepCouples(s: State, r: Ref, code: nat, min: nat)
    requires Couple(s, r, min) && RefStep(r, code, min).Some?
    ensures code < Pow2(s.codeSize)
    ensures Step(s, code, min).Go? && Couple(Step(s, code, min).s, RefStep(r, code, min).value, min)
  {
    if code == ClearCode(min) {
      ClearCouples(s, r, min);
    } else if code < |r.dict| {
      KnownCouples(s, r, code, min);
    } else {
      DefineCouples(s, r, code, min);
    }
  }

  /** The codes read from `pos` on are `codes`, each at the reference width, up to the end code or an undefined code. */
  ghost predicate HoldsCodes(bs: seq<nat>, min: nat, pos: nat, codes: seq<nat>, r: Ref)
    requires IsBits(bs)
    decreases |codes|
  {
    |codes| == 0 ||
    (pos + Width(|r.dict|) <= |bs| && CodeAt(bs, pos, Width(|r.dict|)) == codes[0] &&
     (RefStep(r, codes[0], min).Some? ==>
        HoldsCodes(bs, min, pos + Width(|r.dict|), codes[1..], RefStep(r, codes[0], min).value)))
  }

  /** The reference encoding, anywhere in a stream, holds its codes. */
  lemma {:induction false} EncodingHoldsCodes(bs: seq<nat>, min: nat, pre: seq<nat>, codes: seq<nat>, r: Ref, tail: seq<nat>)
    requires IsBits(bs) && RefSized(r, min) && RefDecode(codes, min, r).Some?
    requires bs == pre + RefBits(codes, min, r) + tail
    ensures HoldsCodes(bs, min, |pre|, codes, r)
    decreases |codes|
  {
    var c, w := codes[0], Width(|r.dict|);
    CodeFits(r, c, min);
    var head := CodeBits(c, w);
    var rest := RefBitsFirst(codes, min, r);
    ReadFirst(bs, pre, c, w, rest, tail);
    if RefStep(r, c, min).Some? {
      var r2 := RefStep(r, c, min).value;
      RefSizedStep(r, c, min);
      EncodingHoldsCodes(bs, min, pre + head, codes[1..], r2, tail);
      HoldsStep(bs, min, |pre|, |pre + head|, codes, r);
    }
  }

  /** The bits after the first code's: the encoding of the rest, or nothing after the end code or an undefined code. */
  lemma RefBitsFirst(codes: seq<nat>, min: nat, r: Ref) returns (rest: seq<nat>)
    requires |codes| > 0
    ensures RefBits(codes, min, r) == CodeBits(codes[0], Width(|r.dict|)) + rest
    ensures RefStep(r, codes[0], min).Some? ==> rest == RefBits(codes[1..], min, RefStep(r, codes[0], min).value)
  {
    rest := match RefStep(r, codes[0], min) case None => [] case Some(r2) => RefBits(codes[1..], min, r2);
  }

  /** The code written first after `pre` reads back, and what follows starts after it. */
  lemma ReadFirst(bs: seq<nat>, pre: seq<nat>, c: nat, w: nat, rest: seq<nat>, tail: seq<nat>)
    requires IsBits(bs) && c < Pow2(w) && bs == pre + (CodeBits(c, w) + rest) + tail
    ensures |pre| + w <= |bs| && CodeAt(bs, |pre|, w) == c
    ensures bs == (pre + CodeBits(c, w)) + rest + tail && |pre + CodeBits(c, w)| == |pre| + w
  {
    var head := CodeBits(c, w);
    AppendAssoc(pre, head, rest);
    AppendAssoc(pre + head, rest, tail);
    AppendAssoc(pre, head, rest + tail);
    ReadCodeBits(pre, c, w, rest + tail);
  }

  /** The first code at `pos`, then the rest at the position after it. */
  lemma HoldsStep(bs: seq<nat>, min: nat, pos: nat, next: nat, codes: seq<nat>, r: Ref)
    requires IsBits(bs) && |codes| > 0 && RefStep(r, codes[0], min).Some?
    requires next == pos + Width(|r.dict|) && next <= |bs| && CodeAt(bs, pos, Width(|r.dict|)) == codes[0]
    requires HoldsCodes(bs, min, next, codes[1..], RefStep(r, codes[0], min).value)
    ensures HoldsCodes(bs, min, pos, codes, r)
  {
  }

  /** Coupled decoders reading the same codes finish with the same output, the table decoder at the end code. */
  lemma {:induction false} RunMatches(bs: seq<nat>, min: nat, s: State, pos: nat, codes: seq<nat>, r: Ref)
    requires IsBits(bs) && Couple(s, r, min) && pos <= |bs|
    requires HoldsCodes(bs, min, pos, codes, r) && RefDecode(codes, min, r).Some?
    ensures Run(bs, min, s, pos).halt == AtEnd && Run(bs, min, s, pos).last.out == RefDecode(codes, min, r).value
    decreases |codes|
  {
    var c := codes[0];
    HoldsFirst(bs, min, pos, codes, r, s.codeSize);
    if c == EndCode(min) {
      EndMatches(bs, min, s, pos, codes, r);
    } else {
      var r2 := RefStep(r, c, min).value;
      StepCouples(s, r, c, min);
      var s2 := Step(s, c, min).s;
      RunMatches(bs, min, s2, pos + s.codeSize, codes[1..], r2);
      StepMatches(bs, min, s, pos, codes, r, s2);
    }
  }

  /** The end code ends both decoders with the output so far. */
  lemma EndMatches(bs: seq<nat>, min: nat, s: State, pos: nat, codes: seq<nat>, r: Ref)
    requires IsBits(bs) && Valid(s, min) && s.out == r.out
    requires |codes| > 0 && codes[0] == EndCode(min)
    requires pos + s.codeSize <= |bs| && CodeAt(bs, pos, s.codeSize) == codes[0]
    ensures RefDecode(codes, min, r) == Some(r.out)
    ensures Run(bs, min, s, pos).halt == AtEnd && Run(bs, min, s, pos).last.out == r.out
  {
    RunEnd(bs, min, s, pos);
  }

  /** A code both decoders accept: the runs go on from the states it leads to. */
  lemma StepMatches(bs: seq<nat>, min: nat, s: State, pos: nat, codes: seq<nat>, r: Ref, s2: State)
    requires IsBits(bs) && Valid(s, min) && pos + s.codeSize <= |bs|
    requires |codes| > 0 && codes[0] != EndCode(min) && RefStep(r, codes[0], min).Some?
    requires CodeAt(bs, pos, s.codeSize) == codes[0] && Step(s, codes[0], min) == Go(s2)
    requires RefDecode(codes[1..], min, RefStep(r, codes[0], min).value).Some?
    requires Run(bs, min, s2, pos + s.codeSize).halt == AtEnd
    requires Run(bs, min, s2, pos + s.codeSize).last.out == RefDecode(codes[1..], min, RefStep(r, codes[0], min).value).value
    ensures Run(bs, min, s, pos).halt == AtEnd && Run(bs, min, s, pos).last.out == RefDecode(codes, min, r).value
  {
    RunOne(bs, min, s, s2, pos);
    RefDecodeStep(codes, min, r);
  }

  /** The first code of a stream holding codes, and the stream holding the rest. */
  lemma HoldsFirst(bs: seq<nat>, min: nat, pos: nat, codes: seq<nat>, r: Ref, w: nat)
    requires IsBits(bs) && HoldsCodes(bs, min, pos, codes, r) && |codes| > 0 && w == Width(|r.dict|)
    ensures pos + w <= |bs| && CodeAt(bs, pos, w) == codes[0]
    ensures RefStep(r, codes[0], min).Some? ==> HoldsCodes(bs, min, pos + w, codes[1..], RefStep(r, codes[0], min).value)
  {
  }

  /** The reference decoder after a code other than the end code. */
  lemma RefDecodeStep(codes: seq<nat>, min: nat, r: Ref)
    requires |codes| > 0 && codes[0] != EndCode(min) && RefStep(r, codes[0], min).Some?
    ensures RefDecode(codes, min, r) == RefDecode(codes[1..], min, RefStep(r, codes[0], min).value)
  {
  }

  /**
   * Decompressing the reference encoding of any code sequence the
   * reference accepts gives the reference's output, for every minimum
   * code size from 2 to 11.
   */
  lemma DecompressMatchesReference(codes: seq<nat>, min: nat)
    requires 2 <= min <= 11 && RefDecode(codes, min, RefInit(min)).Some?
    ensures Decompress(EncodeCodes(codes, min), min) == RefDecode(codes, min, RefInit(min))
  {
    var r0 := RefInit(min);
    var rb := RefBits(codes, min, r0);
    RefBitsAreBits(codes, min, r0);
    PackBitsRoundTrip(rb);
    var pad := Zeros(8 * |PackBits(rb)| - |rb|);
    var bs := Bits(EncodeCodes(codes, min));
    assert bs == [] + rb + pad;
    CoupleInit(min);
    assert RefSized(r0, min);
    EncodingHoldsCodes(bs, min, [], codes, r0, pad);
    RunMatches(bs, min, Init(min), 0, codes, r0);
  }
}
