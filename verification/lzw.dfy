/**
 * The GIF LZW decompressor (`ImageLoader::decompressLZW`, Appendix F of
 * the GIF89a specification): variable-length codes read least significant
 * bit first, a clear code that resets the dictionary, an end code, and a
 * dictionary of up to 4096 strings whose codes grow to at most 12 bits.
 *
 * The dictionary is a 4096-slot table that is not emptied by a clear
 * code: after a clear, slots at or above `next` keep stale strings until
 * they are overwritten, exactly as in the source.
 */
module Lzw {
  import opened Common
  import opened BitStream

  const TableSize: nat := 4096
  const MaxCodeSize: nat := 12

  function ClearCode(min: nat): nat { Pow2(min) }
  function EndCode(min: nat): nat { Pow2(min) + 1 }

  /** Decoder state: the dictionary, the next free code, the current code width, the previous code (-1 for none), the output. */
  datatype State = State(table: seq<seq<Uint8>>, next: nat, codeSize: nat, prev: int, out: seq<Uint8>)

  /**
   * What the decoder maintains between codes: every live entry above the
   * end code is non-empty, and the code width stays within 12 bits once
   * the minimum code size is at most 11. A minimum code size of 12 leaves
   * `next` at 4098 for good, so no entry is ever added.
   */
  ghost predicate Valid(s: State, min: nat)
  {
    match s
    case State(table, next, codeSize, prev, _) =>
      min <= 12 &&
      |table| == TableSize &&
      EndCode(min) < next &&
      prev >= -1 &&
      (min <= 11 ==> next <= TableSize && min + 1 <= codeSize <= MaxCodeSize && prev < TableSize) &&
      (min == 12 ==> next == EndCode(min) + 1 && codeSize == 13) &&
      LiveEntries(table, next, min)
  }

  /** Every live entry above the end code is non-empty. */
  ghost predicate LiveEntries(table: seq<seq<Uint8>>, next: nat, min: nat)
    requires |table| == TableSize
  {
    forall i :: EndCode(min) < i < next && i < TableSize ==> Filled(table, i)
  }

  /** Slot `i` of the table holds a non-empty string. */
  predicate Filled(table: seq<seq<Uint8>>, i: nat)
    requires i < |table|
  {
    table[i] != []
  }

  lemma Pow2Small(min: nat)
    requires min <= 12
    ensures Pow2(min) <= 4096
    ensures min <= 11 ==> Pow2(min) <= 2048 && Pow2(min + 1) <= 4096
    ensures min == 12 ==> Pow2(min) == 4096
  {
    assert Pow2(12) == 4096 by {
      assert Pow2(2) == 4 && Pow2(4) == 16 && Pow2(8) == 256;
    }
    Pow2Mono(min, 12);
    if min <= 11 {
      Pow2Mono(min, 11);
      Pow2Mono(min + 1, 12);
    }
  }

  /**
   * The string for `code`. The source fills slots below the clear code
   * with their own byte (truncated to eight bits) and never writes them
   * again, since new entries go at `next`, which stays above the end
   * code; so a root code reads as its byte and every other code reads
   * the table.
   */
  function Entry(s: State, min: nat, code: nat): (e: seq<Uint8>)
    requires |s.table| == TableSize && code < TableSize
    ensures code < ClearCode(min) ==> e == [code % 256]
  {
    if code < ClearCode(min) then [code % 256] else s.table[code]
  }

  /** The state before the first code. */
  function Init(min: nat): (s: State)
    requires min <= 12
    ensures Valid(s, min)
    ensures s.next == ClearCode(min) + 2 && s.codeSize == min + 1 && s.prev == -1 && s.out == []
  {
    Pow2Small(min);
    State(seq(TableSize, i => []), ClearCode(min) + 2, min + 1, -1, [])
  }

  /** After a code: widen codes by one bit once `next` no longer fits, up to 12 bits. */
  function Grow(s: State, min: nat): (r: State)
    requires Valid(s, min)
    ensures Valid(r, min)
    ensures r == s.(codeSize := r.codeSize)
    ensures r.codeSize == (if s.next > Pow2(s.codeSize) - 1 && s.codeSize < MaxCodeSize then s.codeSize + 1 else s.codeSize)
  {
    if s.next > Pow2(s.codeSize) - 1 && s.codeSize < MaxCodeSize then s.(codeSize := s.codeSize + 1) else s
  }

  /** Why decoding stopped. `BadCode` is a code equal to `next` whose previous code has an empty entry. */
  datatype Halt = AtEnd | Exhausted | BadCode

  datatype Next = Go(s: State) | Stop(halt: Halt)

  /**
   * A code already in the dictionary: its string is emitted, and with a
   * previous code and room left, prev's string plus the first byte just
   * emitted becomes entry `next`.
   */
  function Known(s: State, min: nat, code: nat): (r: State)
    requires Valid(s, min) && code < s.next && code < Pow2(s.codeSize)
    requires code != ClearCode(min) && code != EndCode(min)
    ensures Valid(r, min)
    ensures code < TableSize && Entry(s, min, code) != []
    ensures r.out == s.out + Entry(s, min, code) && s.out <= r.out && r.prev == code && r.codeSize == s.codeSize
    ensures s.prev >= 0 && s.next < TableSize ==>
      s.prev < TableSize &&
      r.next == s.next + 1 && r.table == s.table[s.next := Entry(s, min, s.prev) + [Entry(s, min, code)[0]]]
    ensures !(s.prev >= 0 && s.next < TableSize) ==> r.next == s.next && r.table == s.table
  {
    Pow2Small(min);
    EntryFilled(s, min, code);
    var e := Entry(s, min, code);
    if s.prev >= 0 && s.next < TableSize then
      FillSlot(s, min, Entry(s, min, s.prev) + [e[0]]);
      s.(table := s.table[s.next := Entry(s, min, s.prev) + [e[0]]], next := s.next + 1, prev := code, out := s.out + e)
    else
      s.(prev := code, out := s.out + e)
  }

  /**
   * The code about to be defined (the KwKwK case): prev's string plus its
   * own first byte becomes entry `next` and is emitted.
   */
  function Define(s: State, min: nat, code: nat): (r: State)
    requires Valid(s, min) && code == s.next && s.next < TableSize && 0 <= s.prev
    requires Entry(s, min, s.prev) != []
    ensures Valid(r, min)
    ensures var e := Entry(s, min, s.prev) + [Entry(s, min, s.prev)[0]];
      r.out == s.out + e && s.out <= r.out && r.table == s.table[s.next := e] && r.next == s.next + 1 &&
      r.prev == code && r.codeSize == s.codeSize
  {
    var e := Entry(s, min, s.prev) + [Entry(s, min, s.prev)[0]];
    FillSlot(s, min, e);
    s.(table := s.table[s.next := e], next := s.next + 1, prev := code, out := s.out + e)
  }

  /** Every code in use other than the clear and end codes has a non-empty string. */
  lemma EntryFilled(s: State, min: nat, code: nat)
    requires Valid(s, min) && code < s.next && code < TableSize
    requires code != ClearCode(min) && code != EndCode(min)
    ensures Entry(s, min, code) != []
  {
    if code >= ClearCode(min) {
      assert Filled(s.table, code);
    }
  }

  /** Writing a non-empty string at `next` and moving `next` on keeps every live entry non-empty. */
  lemma FillSlot(s: State, min: nat, e: seq<Uint8>)
    requires Valid(s, min) && s.next < TableSize && e != []
    ensures LiveEntries(s.table[s.next := e], s.next + 1, min)
  {
    var t := s.table[s.next := e];
    forall i | EndCode(min) < i < s.next + 1 && i < TableSize
      ensures Filled(t, i)
    {
      if i < s.next {
        assert Filled(s.table, i);
      }
    }
  }

  /** One code's effect, as the body of the source's loop. */
  function Step(s: State, code: nat, min: nat): (r: Next)
    requires Valid(s, min) && code < Pow2(s.codeSize)
    ensures r.Go? ==> Valid(r.s, min) && s.out <= r.s.out
    ensures r.Stop? ==> r.halt != Exhausted
    ensures r == Stop(AtEnd) <==> code == EndCode(min)
    ensures r == Stop(BadCode) ==> code == s.next && code != ClearCode(min)
  {
    Pow2Small(min);
    if code == EndCode(min) then Stop(AtEnd)
    else if code == ClearCode(min) then Go(s.(next := ClearCode(min) + 2, codeSize := min + 1, prev := -1))
    else if code < s.next then Go(Grow(Known(s, min, code), min))
    else if code == s.next && s.prev >= 0 && s.next < TableSize then
      if Entry(s, min, s.prev) == [] then Stop(BadCode) else Go(Grow(Define(s, min, code), min))
    else
      CodesFit(s, min);
      Go(Grow(s.(prev := code), min))
  }

  /** Below a minimum code size of 12, every code of the current width indexes the table. */
  lemma CodesFit(s: State, min: nat)
    requires Valid(s, min)
    ensures min <= 11 ==> Pow2(s.codeSize) <= TableSize
  {
    if min <= 11 {
      Pow2Mono(s.codeSize, MaxCodeSize);
      Pow2Small(11);
    }
  }

  /** The `w`-bit code starting at stream bit `pos`. */
  function CodeAt(bs: seq<nat>, pos: nat, w: nat): (c: nat)
    requires IsBits(bs) && pos + w <= |bs|
    ensures c < Pow2(w)
  {
    StreamValBound(bs, pos, w);
    StreamVal(bs, pos, w)
  }

  /** Where a run of the decoder ended: the last state, the bit position reached, and why it stopped. */
  datatype Finish = Finish(last: State, pos: nat, halt: Halt)

  /**
   * The decoder loop as the source writes it: it stops as soon as the
   * byte cursor has reached the end of the data, even when the bits
   * already loaded still hold a whole code. With fewer than eight bits
   * pending at the top of the loop, the byte cursor is `(pos + 7) / 8`,
   * so it has reached the end exactly when fewer than eight stream bits
   * are left unread.
   */
  function RunAsWritten(bs: seq<nat>, min: nat, s: State, pos: nat): (f: Finish)
    requires IsBits(bs) && Valid(s, min) && pos <= |bs|
    ensures f.pos >= pos
    decreases |bs| - pos
  {
    if pos + 8 > |bs| || pos + s.codeSize > |bs| then Finish(s, pos, Exhausted)
    else
      var code := CodeAt(bs, pos, s.codeSize);
      match Step(s, code, min)
      case Stop(h) => Finish(s, pos + s.codeSize, h)
      case Go(t) => RunAsWritten(bs, min, t, pos + s.codeSize)
  }

  /**
   * The decoder loop reading every complete code in the data. It only
   * appends to the output, and it stops for lack of bits only when fewer
   * than a code's width remain.
   */
  function Run(bs: seq<nat>, min: nat, s: State, pos: nat): (f: Finish)
    requires IsBits(bs) && Valid(s, min) && pos <= |bs|
    ensures f.pos >= pos
    ensures s.out <= f.last.out
    ensures f.halt == Exhausted ==> f.pos + f.last.codeSize > |bs|
    decreases |bs| - pos
  {
    if pos + s.codeSize > |bs| then Finish(s, pos, Exhausted)
    else
      var code := CodeAt(bs, pos, s.codeSize);
      match Step(s, code, min)
      case Stop(h) => Finish(s, pos + s.codeSize, h)
      case Go(t) =>
        var f := Run(bs, min, t, pos + s.codeSize);
        PrefixTrans(s.out, t.out, f.last.out);
        f
  }

  /** The decoder's result: the output bytes, or `None` where the source would read an empty entry. */
  function Outcome(f: Finish): (r: Option<seq<Uint8>>)
    ensures r.None? <==> f.halt == BadCode
    ensures r.Some? ==> r.value == f.last.out
  {
    if f.halt == BadCode then None else Some(f.last.out)
  }

  /** `decompressLZW` as written: the loop stops once every byte is loaded. */
  function DecompressAsWritten(data: seq<Uint8>, min: nat): (r: Option<seq<Uint8>>)
    requires min <= 12
  {
    Outcome(RunAsWritten(Bits(data), min, Init(min), 0))
  }

  /**
   * `decompressLZW` corrected to decode every whole code in the data,
   * including those still in the bit buffer after the last byte. The
   * round trip with `Compress` is proved for this one; the image widget
   * decodes GIFs with the as-written loop, as the source does.
   */
  function Decompress(data: seq<Uint8>, min: nat): (r: Option<seq<Uint8>>)
    requires min <= 12
  {
    Outcome(Run(Bits(data), min, Init(min), 0))
  }

  /** Which decoder loop: the source's, or one that reads every complete code. */
  datatype Loop = AsWritten | Corrected

  function DecompressBy(loop: Loop, data: seq<Uint8>, min: nat): (r: Option<seq<Uint8>>)
    requires min <= 12
    ensures loop == AsWritten ==> r == DecompressAsWritten(data, min)
    ensures loop == Corrected ==> r == Decompress(data, min)
  {
    match loop
    case AsWritten => DecompressAsWritten(data, min)
    case Corrected => Decompress(data, min)
  }

  /**
   * The source's loop decodes a prefix of what the corrected loop decodes,
   * and the same run whenever it stops at a code rather than for lack of
   * bytes.
   */
  lemma {:induction false} AsWrittenPrefix(bs: seq<nat>, min: nat, s: State, pos: nat)
    requires IsBits(bs) && Valid(s, min) && pos <= |bs|
    ensures AsWrittenBehind(RunAsWritten(bs, min, s, pos), Run(bs, min, s, pos))
    decreases |bs| - pos
  {
    if pos + 8 > |bs| || pos + s.codeSize > |bs| {
      BehindAtEnd(bs, min, s, pos);
    } else {
      var go, t := BehindStep(bs, min, s, pos);
      if go {
        AsWrittenPrefix(bs, min, t, pos + s.codeSize);
      }
    }
  }

  /** The as-written run's output is a prefix of the other's, and the same, with the same halt, when it stopped at a code. */
  ghost predicate AsWrittenBehind(a: Finish, b: Finish)
  {
    a.last.out <= b.last.out && (a.halt != Exhausted ==> a.halt == b.halt && a.last.out == b.last.out)
  }

  /** When the source's loop stops for lack of bytes, it has decoded a prefix of the other's output. */
  lemma BehindAtEnd(bs: seq<nat>, min: nat, s: State, pos: nat)
    requires IsBits(bs) && Valid(s, min) && pos <= |bs| && (pos + 8 > |bs| || pos + s.codeSize > |bs|)
    ensures AsWrittenBehind(RunAsWritten(bs, min, s, pos), Run(bs, min, s, pos))
  {
    assert RunAsWritten(bs, min, s, pos) == Finish(s, pos, Exhausted);
  }

  /**
   * Both loops read the same first code: either both stop there, or they
   * are as far apart as the runs from the state it leads to.
   */
  lemma BehindStep(bs: seq<nat>, min: nat, s: State, pos: nat) returns (go: bool, t: State)
    requires IsBits(bs) && Valid(s, min) && pos + 8 <= |bs| && pos + s.codeSize <= |bs|
    ensures go ==> Valid(t, min)
    ensures go ==>
      (AsWrittenBehind(RunAsWritten(bs, min, t, pos + s.codeSize), Run(bs, min, t, pos + s.codeSize)) ==>
       AsWrittenBehind(RunAsWritten(bs, min, s, pos), Run(bs, min, s, pos)))
    ensures !go ==> AsWrittenBehind(RunAsWritten(bs, min, s, pos), Run(bs, min, s, pos))
  {
    AsWrittenUnfold(bs, min, s, pos);
    RunUnfold(bs, min, s, pos);
    var st := Step(s, CodeAt(bs, pos, s.codeSize), min);
    go := st.Go?;
    t := if go then st.s else s;
  }

  /**
   * The source's decompressor against the corrected one: where it fails
   * the corrected one fails too, and where both succeed its output is a
   * prefix of the corrected output.
   */
  lemma AsWrittenAgrees(data: seq<Uint8>, min: nat)
    requires min <= 12
    ensures DecompressAsWritten(data, min).None? ==> Decompress(data, min).None?
    ensures DecompressAsWritten(data, min).Some? && Decompress(data, min).Some? ==>
      DecompressAsWritten(data, min).value <= Decompress(data, min).value
  {
    AsWrittenPrefix(Bits(data), min, Init(min), 0);
  }

  lemma PrefixTrans<T>(a: seq<T>, b: seq<T>, c: seq<T>)
    requires a <= b && b <= c
    ensures a <= c
  {
    assert c[..|b|][..|a|] == c[..|a|];
  }

  lemma RunUnfold(bs: seq<nat>, min: nat, s: State, pos: nat)
    requires IsBits(bs) && Valid(s, min) && pos + s.codeSize <= |bs|
    ensures var st := Step(s, CodeAt(bs, pos, s.codeSize), min);
      Run(bs, min, s, pos) ==
        if st.Stop? then Finish(s, pos + s.codeSize, st.halt) else Run(bs, min, st.s, pos + s.codeSize)
  {
  }

  /** Byte 0x09 read as 3-bit codes from bit 0 is the codes 1 and 1. */
  lemma NineAsCodes()
    ensures Bits([9]) == [1, 0, 0, 1, 0, 0, 0, 0]
    ensures StreamVal(Bits([9]), 0, 3) == 1 && StreamVal(Bits([9]), 3, 3) == 1
  {
    assert Shr(9, 1) == 4 && Shr(9, 2) == 2 && Shr(9, 3) == 1 && Shr(9, 4) == 0;
    assert Shr(9, 5) == 0 && Shr(9, 6) == 0 && Shr(9, 7) == 0;
    assert ByteBits(9) == [1, 0, 0, 1, 0, 0, 0, 0];
    assert Bits([9]) == ByteBits(9) + Bits([]);
  }

  lemma TwoOnes()
    ensures Step(Init(2), 1, 2).Go?
    ensures var s1 := Step(Init(2), 1, 2).s;
      s1.out == [1] && s1.codeSize == 3 &&
      Step(s1, 1, 2).Go? && Step(s1, 1, 2).s.out == [1, 1] && Step(s1, 1, 2).s.codeSize == 3
  {
    assert Pow2(2) == 4 && Pow2(3) == 8;
    var s0 := Init(2);
    assert Entry(s0, 2, 1) == [1];
    var s1 := Step(s0, 1, 2).s;
    assert s1.next == 6 && s1.prev == 1 && s1.table == s0.table;
  }

  /** The as-written loop stops with a whole 3-bit code unread: byte 0x09 holds codes 1 and 1, and only the first is decoded. */
  lemma AsWrittenDropsLastCode()
    ensures DecompressAsWritten([9], 2) == Some([1])
    ensures Decompress([9], 2) == Some([1, 1])
    ensures RunAsWritten(Bits([9]), 2, Init(2), 0).halt == Exhausted && RunAsWritten(Bits([9]), 2, Init(2), 0).pos + 3 <= 8
  {
    NineAsCodes();
    TwoOnes();
    var bs := Bits([9]);
    var s1 := Step(Init(2), 1, 2).s;
    var s2 := Step(s1, 1, 2).s;
    assert RunAsWritten(bs, 2, Init(2), 0) == RunAsWritten(bs, 2, s1, 3);
    assert RunAsWritten(bs, 2, s1, 3) == Finish(s1, 3, Exhausted);
    assert Run(bs, 2, Init(2), 0) == Run(bs, 2, s1, 3);
    assert Run(bs, 2, s1, 3) == Run(bs, 2, s2, 6);
    assert Run(bs, 2, s2, 6) == Finish(s2, 6, Exhausted);
  }

  lemma AsWrittenUnfold(bs: seq<nat>, min: nat, s: State, pos: nat)
    requires IsBits(bs) && Valid(s, min) && pos + 8 <= |bs| && pos + s.codeSize <= |bs|
    ensures var st := Step(s, CodeAt(bs, pos, s.codeSize), min);
      RunAsWritten(bs, min, s, pos) ==
        if st.Stop? then Finish(s, pos + s.codeSize, st.halt) else RunAsWritten(bs, min, st.s, pos + s.codeSize)
  {
  }

  /** With fewer than eight bits pending, the byte cursor is at the end exactly when fewer than eight stream bits are unread. */
  lemma CursorAtEnd(pos: nat, avail: nat, bytePos: nat, n: nat)
    requires 8 * bytePos == pos + avail && avail < 8
    ensures bytePos >= n <==> pos + 8 > 8 * n
  {
  }

  /**
   * The source's loop with its bit accumulator: bytes are shifted in
   * above the pending bits (the source's `|=` acts as `+` because the
   * pending value is below `2^avail`), codes are masked off the bottom
   * and the rest shifted down.
   * The accumulator never exceeds 20 bits, so the source's 32-bit
   * `bits` does not wrap.
   */
  method DecompressLoop(data: seq<Uint8>, min: nat) returns (r: Option<seq<Uint8>>)
    requires min <= 12
    ensures r == DecompressAsWritten(data, min)
  {
    var s := Init(min);
    var bits: nat := 0;
    var avail: nat := 0;
    var bytePos: nat := 0;
    ghost var pos: nat := 0;
    ghost var f := RunAsWritten(Bits(data), min, s, 0);
    var halt := Exhausted;
    var stopped := false;
    while bytePos < |data| && !stopped
      invariant Valid(s, min) && bytePos <= |data|
      invariant 8 * bytePos == pos + avail && avail < 8
      invariant bits == StreamVal(Bits(data), pos, avail)
      invariant !stopped ==> RunAsWritten(Bits(data), min, s, pos) == f
      invariant stopped ==> f == Finish(s, f.pos, halt)
      invariant !stopped ==> halt == Exhausted
      decreases 8 * |data| - pos, if stopped then 0 else 1
    {
      s, bits, avail, bytePos, pos, stopped, halt := Iterate(data, min, s, bits, avail, bytePos, pos);
    }
    if !stopped {
      CursorAtEnd(pos, avail, bytePos, |data|);
      assert f == Finish(s, pos, Exhausted);
    }
    r := if halt == BadCode then None else Some(s.out);
  }

  /** One pass of the source's outer loop: read a code and apply it, or stop. */
  method Iterate(data: seq<Uint8>, min: nat, s: State, bits: nat, avail: nat, bytePos: nat, ghost pos: nat)
    returns (s': State, bits': nat, avail': nat, bytePos': nat, ghost pos': nat, stopped: bool, halt: Halt)
    requires Valid(s, min) && bytePos < |data|
    requires 8 * bytePos == pos + avail && avail < 8
    requires bits == StreamVal(Bits(data), pos, avail)
    ensures Valid(s', min) && bytePos' <= |data|
    ensures 8 * bytePos' == pos' + avail' && avail' < 8
    ensures bits' == StreamVal(Bits(data), pos', avail')
    ensures pos' >= pos && (!stopped ==> pos' > pos)
    ensures stopped ==>
      RunAsWritten(Bits(data), min, s, pos) == Finish(s', RunAsWritten(Bits(data), min, s, pos).pos, halt)
    ensures !stopped ==>
      RunAsWritten(Bits(data), min, s, pos) == RunAsWritten(Bits(data), min, s', pos') && halt == Exhausted
  {
    CursorAtEnd(pos, avail, bytePos, |data|);
    var ok, code;
    ok, code, bits', avail', bytePos' := ReadCode(data, bits, avail, bytePos, pos, s.codeSize);
    if !ok {
      return s, bits, avail, bytePos, pos, true, Exhausted;
    }
    var st := Step(s, code, min);
    AsWrittenUnfold(Bits(data), min, s, pos);
    pos' := pos + s.codeSize;
    if st.Stop? {
      return s, bits', avail', bytePos', pos', true, st.halt;
    }
    s' := st.s;
    stopped := false;
    halt := Exhausted;
  }

  /**
   * One code from the accumulator: shift in whole bytes while fewer than
   * `width` bits are pending, then mask the code off the bottom. Fails
   * when the data runs out first.
   */
  method ReadCode(data: seq<Uint8>, bits: nat, avail: nat, bytePos: nat, ghost pos: nat, width: nat)
    returns (ok: bool, code: nat, bits': nat, avail': nat, bytePos': nat)
    requires bytePos <= |data| && 8 * bytePos == pos + avail && avail < 8
    requires bits == StreamVal(Bits(data), pos, avail)
    ensures ok <==> pos + width <= 8 * |data|
    ensures ok ==>
      code == CodeAt(Bits(data), pos, width) && bytePos' <= |data| &&
      8 * bytePos' == pos + width + avail' && avail' < 8 && bits' == StreamVal(Bits(data), pos + width, avail')
  {
    bits', avail', bytePos' := bits, avail, bytePos;
    while avail' < width && bytePos' < |data|
      invariant bytePos' <= |data| && 8 * bytePos' == pos + avail'
      invariant bits' == StreamVal(Bits(data), pos, avail')
      invariant avail' < width + 8
      decreases |data| - bytePos'
    {
      LoadByte(data, pos, avail', bytePos');
      bits' := bits' + Shl(data[bytePos'], avail');
      bytePos' := bytePos' + 1;
      avail' := avail' + 8;
    }
    if avail' < width {
      return false, 0, bits', avail', bytePos';
    }
    StreamTake(Bits(data), pos, avail', width);
    code := Low(bits', width);
    bits' := Shr(bits', width);
    avail' := avail' - width;
    ok := true;
  }

  /*
   * A reference encoder for the round trip: each byte is sent as a literal
   * code preceded by a clear code, so the dictionary never grows and the
   * code width stays at `min + 1`; an end code closes the stream.
   */

  function UncompressedCodes(bytes: seq<Uint8>, min: nat): (codes: seq<nat>)
    ensures |codes| == 2 * |bytes| + 1
    decreases |bytes|
  {
    if |bytes| == 0 then [EndCode(min)]
    else [ClearCode(min), bytes[0] as nat] + UncompressedCodes(bytes[1..], min)
  }

  /** Codes written out as `w`-bit fields, one after another, least significant bit first. */
  function CodesBits(codes: seq<nat>, w: nat): (bs: seq<nat>)
    decreases |codes|
  {
    if |codes| == 0 then [] else CodeBits(codes[0], w) + CodesBits(codes[1..], w)
  }

  lemma {:induction false} CodesBitsAreBits(codes: seq<nat>, w: nat)
    ensures IsBits(CodesBits(codes, w))
    decreases |codes|
  {
    if |codes| > 0 {
      CodeBitsAreBits(codes[0], w);
      CodesBitsAreBits(codes[1..], w);
    }
  }

  /** The encoder: the codes of `UncompressedCodes` packed into bytes. */
  function Compress(bytes: seq<Uint8>, min: nat): (data: seq<Uint8>)
  {
    CodesBitsAreBits(UncompressedCodes(bytes, min), min + 1);
    PackBits(CodesBits(UncompressedCodes(bytes, min), min + 1))
  }

  /** With `min >= 2` the literal and control codes fit in `min + 1` bits and never trigger a wider code. */
  lemma NarrowCodes(min: nat)
    requires 2 <= min <= 12
    ensures EndCode(min) < Pow2(min + 1)
    ensures ClearCode(min) + 2 <= Pow2(min + 1) - 1
  {
    Pow2Mono(2, min);
    assert Pow2(2) == 4;
  }

  /** The decoder state at the start of each clear-and-literal pair of the reference encoding. */
  ghost predicate AtPair(s: State, min: nat)
  {
    Valid(s, min) && 2 <= min && s.codeSize == min + 1
  }

  /** The decoder state right after a clear code. */
  ghost predicate AfterClear(t: State, min: nat)
  {
    AtPair(t, min) && t.next == ClearCode(min) + 2 && t.prev == -1
  }

  /** A clear code resets the dictionary, keeping the output and the code width. */
  lemma ClearResets(s: State, min: nat)
    requires AtPair(s, min)
    ensures var s1 := s.(next := ClearCode(min) + 2, prev := -1);
      Step(s, ClearCode(min), min) == Go(s1) && AfterClear(s1, min)
  {
    NarrowCodes(min);
  }

  /** Right after a clear code, a literal is emitted and becomes the previous code. */
  lemma LiteralAfterClear(t: State, min: nat, b: Uint8)
    requires AfterClear(t, min) && (b as nat) < ClearCode(min)
    ensures var t2 := t.(prev := b as nat, out := t.out + [b]);
      Step(t, b as nat, min) == Go(t2) && AtPair(t2, min)
  {
    NarrowCodes(min);
    assert Entry(t, min, b as nat) == [b];
  }

  /** The bits of a clear-and-literal pair and of what follows it. */
  lemma PairBits(bytes: seq<Uint8>, min: nat)
    requires |bytes| > 0
    ensures CodesBits(UncompressedCodes(bytes, min), min + 1) ==
      CodeBits(ClearCode(min), min + 1) + (CodeBits(bytes[0] as nat, min + 1) + CodesBits(UncompressedCodes(bytes[1..], min), min + 1))
  {
    var codes := UncompressedCodes(bytes, min);
    assert codes[1..][1..] == UncompressedCodes(bytes[1..], min);
  }

  /** The two codes of a clear-and-literal pair, read from the stream after the bits `pre`. */
  lemma ReadPair(bs: seq<nat>, min: nat, pre: seq<nat>, bytes: seq<Uint8>, tail: seq<nat>)
    requires 2 <= min <= 12 && |bytes| > 0 && bytes[0] as nat < ClearCode(min)
    requires bs == pre + CodesBits(UncompressedCodes(bytes, min), min + 1) + tail
    ensures IsBits(bs) ==>
      |pre| + 2 * (min + 1) <= |bs| &&
      CodeAt(bs, |pre|, min + 1) == ClearCode(min) &&
      CodeAt(bs, |pre| + (min + 1), min + 1) == bytes[0] as nat
    ensures var pre2 := pre + CodeBits(ClearCode(min), min + 1) + CodeBits(bytes[0] as nat, min + 1);
      |pre2| == |pre| + 2 * (min + 1) &&
      bs == pre2 + CodesBits(UncompressedCodes(bytes[1..], min), min + 1) + tail
  {
    var w := min + 1;
    var c0 := CodeBits(ClearCode(min), w);
    var c1 := CodeBits(bytes[0] as nat, w);
    var more := CodesBits(UncompressedCodes(bytes[1..], min), w);
    NarrowCodes(min);
    PairBits(bytes, min);
    AppendAssoc(pre, c0, c1 + more);
    AppendAssoc(pre + c0, c1, more);
    AppendAssoc(pre + c0, c1 + more, tail);
    AppendAssoc(pre + c0 + c1, more, tail);
    ReadCodeBits(pre, ClearCode(min), w, (c1 + more) + tail);
    ReadCodeBits(pre + c0, bytes[0] as nat, w, more + tail);
  }

  /** A code that lets the decoder go on: the run from it is the run from the state it leads to. */
  lemma RunOne(bs: seq<nat>, min: nat, s: State, s1: State, pos: nat)
    requires IsBits(bs) && Valid(s, min) && pos + s.codeSize <= |bs|
    requires Step(s, CodeAt(bs, pos, s.codeSize), min) == Go(s1)
    ensures Valid(s1, min) && Run(bs, min, s, pos) == Run(bs, min, s1, pos + s.codeSize)
  {
    RunUnfold(bs, min, s, pos);
  }

  /** The end code of the reference encoding, read from the stream after the bits `pre`. */
  lemma ReadEnd(bs: seq<nat>, min: nat, pre: seq<nat>, tail: seq<nat>)
    requires IsBits(bs) && 2 <= min <= 12
    requires bs == pre + CodeBits(EndCode(min), min + 1) + tail
    ensures |pre| + min + 1 <= |bs| && CodeAt(bs, |pre|, min + 1) == EndCode(min)
  {
    NarrowCodes(min);
    ReadCodeBits(pre, EndCode(min), min + 1, tail);
  }

  /** The end code stops the decoder where it is. */
  lemma RunEnd(bs: seq<nat>, min: nat, s: State, pos: nat)
    requires IsBits(bs) && Valid(s, min) && pos + s.codeSize <= |bs| && CodeAt(bs, pos, s.codeSize) == EndCode(min)
    ensures Run(bs, min, s, pos) == Finish(s, pos + s.codeSize, AtEnd)
  {
    RunUnfold(bs, min, s, pos);
  }

  /** A clear code resets the dictionary and leaves the code width as it was. */
  lemma RunClear(bs: seq<nat>, min: nat, s: State, pos: nat)
    requires IsBits(bs) && AtPair(s, min) && pos + s.codeSize <= |bs| && CodeAt(bs, pos, s.codeSize) == ClearCode(min)
    ensures var s1 := s.(next := ClearCode(min) + 2, prev := -1);
      AfterClear(s1, min) && Run(bs, min, s, pos) == Run(bs, min, s1, pos + s.codeSize)
  {
    var s1 := s.(next := ClearCode(min) + 2, prev := -1);
    assert Step(s, ClearCode(min), min) == Go(s1) && AfterClear(s1, min) by {
      ClearResets(s, min);
    }
    RunOne(bs, min, s, s1, pos);
  }

  /** Right after a clear code, a literal is emitted and becomes the previous code. */
  lemma RunLiteral(bs: seq<nat>, min: nat, t: State, pos: nat, b: Uint8)
    requires IsBits(bs) && AfterClear(t, min) && b as nat < ClearCode(min) && pos + t.codeSize <= |bs|
    requires CodeAt(bs, pos, t.codeSize) == b as nat
    ensures var t2 := t.(prev := b as nat, out := t.out + [b]);
      AtPair(t2, min) && Run(bs, min, t, pos) == Run(bs, min, t2, pos + t.codeSize)
  {
    var t2 := t.(prev := b as nat, out := t.out + [b]);
    assert Step(t, CodeAt(bs, pos, t.codeSize), min) == Go(t2) by {
      LiteralAfterClear(t, min, b);
    }
    RunOne(bs, min, t, t2, pos);
  }

  /** A clear code and then a literal take the decoder to the next pair, with the byte emitted. */
  lemma RunPair(bs: seq<nat>, min: nat, s: State, pos: nat, b: Uint8)
    requires IsBits(bs) && AtPair(s, min) && b as nat < ClearCode(min) && pos + 2 * (min + 1) <= |bs|
    requires CodeAt(bs, pos, min + 1) == ClearCode(min) && CodeAt(bs, pos + (min + 1), min + 1) == b as nat
    ensures var s2 := s.(next := ClearCode(min) + 2, prev := b as nat, out := s.out + [b]);
      AtPair(s2, min) && Run(bs, min, s, pos) == Run(bs, min, s2, pos + 2 * (min + 1))
  {
    var s1 := s.(next := ClearCode(min) + 2, prev := -1);
    var s2 := s.(next := ClearCode(min) + 2, prev := b as nat, out := s.out + [b]);
    var mid := pos + s.codeSize;
    assert CodeAt(bs, mid, s1.codeSize) == b as nat by {
      CodeAtSame(bs, pos + (min + 1), mid, min + 1);
    }
    RunClear(bs, min, s, pos);
    RunLiteral(bs, min, s1, mid, b);
    assert s1.(prev := b as nat, out := s1.out + [b]) == s2;
    RunAt(bs, min, s2, mid + s1.codeSize, pos + 2 * (min + 1));
  }

  /** The code at a position does not depend on how the position is written. */
  lemma CodeAtSame(bs: seq<nat>, p: nat, q: nat, w: nat)
    requires IsBits(bs) && p == q && q + w <= |bs|
    ensures CodeAt(bs, p, w) == CodeAt(bs, q, w)
  {
  }

  /** The run from a position does not depend on how the position is written. */
  lemma RunAt(bs: seq<nat>, min: nat, s: State, p: nat, q: nat)
    requires IsBits(bs) && Valid(s, min) && p == q && q <= |bs|
    ensures Run(bs, min, s, p) == Run(bs, min, s, q)
  {
  }

  /** The codes read from `pos` on are clear-and-literal pairs for `bytes`, then the end code, all `min + 1` bits wide. */
  ghost predicate HoldsPairs(bs: seq<nat>, min: nat, pos: nat, bytes: seq<Uint8>)
    requires IsBits(bs)
    decreases |bytes|
  {
    var w := min + 1;
    if |bytes| == 0 then pos + w <= |bs| && CodeAt(bs, pos, w) == EndCode(min)
    else
      pos + 2 * w <= |bs| && CodeAt(bs, pos, w) == ClearCode(min) && CodeAt(bs, pos + w, w) == bytes[0] as nat &&
      HoldsPairs(bs, min, pos + 2 * w, bytes[1..])
  }

  /** One clear-and-literal pair in front of the pairs for the rest. */
  lemma HoldsPairsStep(bs: seq<nat>, min: nat, pos: nat, next: nat, bytes: seq<Uint8>)
    requires IsBits(bs) && |bytes| > 0 && next == pos + 2 * (min + 1) && next <= |bs|
    requires CodeAt(bs, pos, min + 1) == ClearCode(min) && CodeAt(bs, pos + (min + 1), min + 1) == bytes[0] as nat
    requires HoldsPairs(bs, min, next, bytes[1..])
    ensures HoldsPairs(bs, min, pos, bytes)
  {
  }

  /** The reference encoding, anywhere in a stream, holds the pairs for its bytes. */
  lemma {:induction false} EncodingHoldsPairs(bs: seq<nat>, min: nat, pre: seq<nat>, bytes: seq<Uint8>, tail: seq<nat>)
    requires IsBits(bs) && 2 <= min <= 12
    requires forall i :: 0 <= i < |bytes| ==> bytes[i] < ClearCode(min)
    requires bs == pre + CodesBits(UncompressedCodes(bytes, min), min + 1) + tail
    ensures HoldsPairs(bs, min, |pre|, bytes)
    decreases |bytes|
  {
    if |bytes| == 0 {
      assert CodesBits(UncompressedCodes(bytes, min), min + 1) == CodeBits(EndCode(min), min + 1);
      ReadEnd(bs, min, pre, tail);
    } else {
      ReadPair(bs, min, pre, bytes, tail);
      var pre2 := pre + CodeBits(ClearCode(min), min + 1) + CodeBits(bytes[0] as nat, min + 1);
      EncodingHoldsPairs(bs, min, pre2, bytes[1..], tail);
      HoldsPairsStep(bs, min, |pre|, |pre2|, bytes);
    }
  }

  /** The decoder takes every clear-and-literal pair back to its byte, and stops at the end code. */
  lemma {:induction false} RunUncompressed(bs: seq<nat>, min: nat, s: State, pos: nat, bytes: seq<Uint8>)
    requires IsBits(bs) && AtPair(s, min) && pos <= |bs|
    requires forall i :: 0 <= i < |bytes| ==> bytes[i] < ClearCode(min)
    requires HoldsPairs(bs, min, pos, bytes)
    ensures Run(bs, min, s, pos).halt == AtEnd && Run(bs, min, s, pos).last.out == s.out + bytes
    decreases |bytes|, 1
  {
    if |bytes| == 0 {
      assert Run(bs, min, s, pos) == Finish(s, pos + s.codeSize, AtEnd) by {
        RunEnd(bs, min, s, pos);
      }
      assert s.out + bytes == s.out;
    } else {
      PairsOnward(bs, min, s, pos, bytes);
    }
  }

  /** The step of the induction above: the first pair, then the rest. */
  lemma {:induction false} PairsOnward(bs: seq<nat>, min: nat, s: State, pos: nat, bytes: seq<Uint8>)
    requires IsBits(bs) && AtPair(s, min) && |bytes| > 0
    requires forall i :: 0 <= i < |bytes| ==> bytes[i] < ClearCode(min)
    requires HoldsPairs(bs, min, pos, bytes)
    ensures Run(bs, min, s, pos).halt == AtEnd && Run(bs, min, s, pos).last.out == s.out + bytes
    decreases |bytes|, 0
  {
    var b, next := bytes[0], pos + 2 * (min + 1);
    var s2 := s.(next := ClearCode(min) + 2, prev := b as nat, out := s.out + [b]);
    PairAhead(bs, min, s, pos, bytes);
    RunUncompressed(bs, min, s2, next, bytes[1..]);
    AppendFirst(s.out, bytes);
  }

  lemma AppendFirst<T>(a: seq<T>, b: seq<T>)
    requires |b| > 0
    ensures (a + [b[0]]) + b[1..] == a + b
  {
    assert [b[0]] + b[1..] == b;
  }

  /** The first pair of a stream holding pairs takes the decoder to the next pair, and the rest holds the remaining pairs. */
  lemma PairAhead(bs: seq<nat>, min: nat, s: State, pos: nat, bytes: seq<Uint8>)
    requires IsBits(bs) && AtPair(s, min) && |bytes| > 0 && bytes[0] as nat < ClearCode(min)
    requires HoldsPairs(bs, min, pos, bytes)
    ensures var s2 := s.(next := ClearCode(min) + 2, prev := bytes[0] as nat, out := s.out + [bytes[0]]);
      AtPair(s2, min) && HoldsPairs(bs, min, pos + 2 * (min + 1), bytes[1..]) &&
      Run(bs, min, s, pos) == Run(bs, min, s2, pos + 2 * (min + 1))
  {
    RunPair(bs, min, s, pos, bytes[0]);
  }

  /** Decompressing the reference encoding gives back the bytes, for every minimum code size from 2 to 12. */
  lemma DecompressCompress(bytes: seq<Uint8>, min: nat)
    requires 2 <= min <= 12
    requires forall i :: 0 <= i < |bytes| ==> bytes[i] < ClearCode(min)
    ensures Decompress(Compress(bytes, min), min) == Some(bytes)
  {
    var cb := CodesBits(UncompressedCodes(bytes, min), min + 1);
    CodesBitsAreBits(UncompressedCodes(bytes, min), min + 1);
    PackBitsRoundTrip(cb);
    var bs := Bits(Compress(bytes, min));
    assert bs == [] + cb + Zeros(8 * |PackBits(cb)| - |cb|);
    var f := Run(bs, min, Init(min), 0);
    EncodingHoldsPairs(bs, min, [], bytes, Zeros(8 * |PackBits(cb)| - |cb|));
    RunUncompressed(bs, min, Init(min), 0, bytes);
    assert f.halt == AtEnd && f.last.out == bytes;
    assert Outcome(f) == Some(bytes);
  }
}
