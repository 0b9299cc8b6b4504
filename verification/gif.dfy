/**
 * The framework's GIF decoder (`ImageLoader::parseGIF`,
 * `parseGIFColorTable` and `parseGIFImageData`): the header and logical
 * screen descriptor, the optional global colour table, a scan for the
 * first image descriptor that skips extensions, the image's LZW data
 * gathered from its data sub-blocks, and the mapping of colour indices to
 * ARGB words. Only the first image of a file is decoded, and the image
 * descriptor's flags are not read: a local colour table or interlacing
 * is not recognised.
 */
module Gif {
  import opened Common
  import opened Bytes
  import opened Argb
  import opened BitStream
  import opened Lzw

  /** "GIF87a" and "GIF89a". */
  const Signature87: seq<Uint8> := [0x47, 0x49, 0x46, 0x38, 0x37, 0x61]
  const Signature89: seq<Uint8> := [0x47, 0x49, 0x46, 0x38, 0x39, 0x61]

  const ImageSeparator: Uint8 := 0x2C
  const ExtensionIntroducer: Uint8 := 0x21
  const Trailer: Uint8 := 0x3B

  /** Size of the header plus the logical screen descriptor. */
  const HeaderSize: nat := 13

  datatype GifError =
    | TooShort          // fewer than 13 bytes
    | BadSignature      // neither "GIF87a" nor "GIF89a"
    | ShortColorTable   // the global colour table runs past the end of the data
    | NoImage           // a trailer, or the end of the data, before any image separator
    | ShortDescriptor   // fewer than ten bytes after the image separator
    | ShortSubBlock     // an image data sub-block runs past the end of the data
    | CodeSizeTooLarge  // a minimum code size above 12
    | EmptyEntryCode    // an LZW code whose string would be read from an empty dictionary entry
    | TooManyPixels     // the image's width times height does not fit in an `int`

  /** `n` RGB triples from `off`, each an opaque ARGB word. */
  function ColorTable(data: seq<Uint8>, off: nat, n: nat): (t: seq<Uint32>)
    requires off + 3 * n <= |data|
    ensures |t| == n
  {
    seq(n, i requires 0 <= i < n => Opaque(data[off + 3 * i], data[off + 3 * i + 1], data[off + 3 * i + 2]))
  }

  /** Entry `i` of the table is opaque, with the red, green and blue bytes of triple `i`. */
  lemma ColorTableEntry(data: seq<Uint8>, off: nat, n: nat, i: nat)
    requires off + 3 * n <= |data| && i < n
    ensures var c := ColorTable(data, off, n)[i];
      Alpha(c) == 255 && Red(c) == data[off + 3 * i] && Green(c) == data[off + 3 * i + 1] && Blue(c) == data[off + 3 * i + 2]
  {
  }

  /**
   * Skips data sub-blocks from `off` through the zero-length terminator.
   * Block sizes are not checked against the data, so without a
   * terminator the result is at or past the end.
   */
  function SkipSubBlocks(data: seq<Uint8>, off: nat): (r: nat)
    ensures r > off || (off >= |data| && r == off)
    decreases if off < |data| then |data| - off else 0
  {
    if off >= |data| then off
    else if data[off] == 0 then off + 1
    else SkipSubBlocks(data, off + 1 + data[off])
  }

  /**
   * The scan after the colour table: an image separator ends it; an
   * extension introducer is followed by a label and data sub-blocks,
   * which are skipped; a trailer ends the file; any other byte is passed
   * over. The result is the offset just past the image separator.
   */
  function FindImage(data: seq<Uint8>, off: nat): (r: Option<nat>)
    ensures r.Some? ==> off < r.value <= |data| && data[r.value - 1] == ImageSeparator
    decreases if off < |data| then |data| - off else 0
  {
    if off >= |data| then None
    else if data[off] == ImageSeparator then Some(off + 1)
    else if data[off] == ExtensionIntroducer then
      if off + 1 >= |data| then None else FindImage(data, SkipSubBlocks(data, off + 2))
    else if data[off] == Trailer then None
    else FindImage(data, off + 1)
  }

  /** The image's LZW data: its data sub-blocks from `off` concatenated, up to the terminator or the end of the data. */
  function GatherSubBlocks(data: seq<Uint8>, off: nat): (r: Result<seq<Uint8>, GifError>)
    ensures r.Err? ==> r.error == ShortSubBlock
    decreases if off < |data| then |data| - off else 0
  {
    if off >= |data| || data[off] == 0 then Ok([])
    else if off + 1 + data[off] > |data| then Err(ShortSubBlock)
    else
      match GatherSubBlocks(data, off + 1 + data[off])
      case Err(e) => Err(e)
      case Ok(rest) => Ok(data[off + 1..off + 1 + data[off]] + rest)
  }

  /** The colour of index `k`: its table entry, or opaque black past the end of the table. */
  function ColorOf(table: seq<Uint32>, k: Uint8): Uint32
  {
    if k < |table| then table[k] else OpaqueBlack
  }

  /** The pixel buffer of `n` words: the decoded indices' colours, then words never written. */
  function Pixels(indices: seq<Uint8>, table: seq<Uint32>, n: nat): (ps: seq<Option<Uint32>>)
    ensures |ps| == n
  {
    seq(n, i requires 0 <= i < n => if i < |indices| then Some(ColorOf(table, indices[i])) else None)
  }

  /**
   * The image descriptor after the separator at `off - 1`: position, size
   * and flags (of which only the size is used), the minimum code size,
   * the data sub-blocks, then decompression. The picture reports the
   * logical screen's size while its buffer has the image's size.
   */
  function DecodeImage(data: seq<Uint8>, off: nat, table: seq<Uint32>, width: int, height: int, loop: Loop): (r: Result<Image, GifError>)
    ensures r.Ok? ==> off + 10 <= |data| && r.value.width == width && r.value.height == height
    ensures r.Ok? ==> |r.value.pixels| == PixelCount(data, off) <= INT32_MAX
    ensures r.Ok? ==> data[off + 9] <= MaxCodeSize
    ensures off + 10 > |data| <==> r == Err(ShortDescriptor)
  {
    if off + 10 > |data| then Err(ShortDescriptor)
    else
      var min := data[off + 9];
      match GatherSubBlocks(data, off + 10)
      case Err(e) => Err(e)
      case Ok(lzw) =>
        if min > MaxCodeSize then Err(CodeSizeTooLarge)
        else
          match DecompressBy(loop, lzw, min)
          case None => Err(EmptyEntryCode)
          case Some(indices) =>
            if PixelCount(data, off) > INT32_MAX then Err(TooManyPixels)
            else Ok(Image(width, height, Pixels(indices, table, PixelCount(data, off))))
  }

  /** The image descriptor's width times its height. */
  function PixelCount(data: seq<Uint8>, off: nat): (n: nat)
    requires off + 8 <= |data|
    ensures n == LE16At(data, off + 4) * LE16At(data, off + 6)
  {
    var w: nat := LE16At(data, off + 4);
    var h: nat := LE16At(data, off + 6);
    MulNat(w, h);
    w * h
  }

  /** Entries in the global colour table that the screen descriptor's flags announce, or 0 without one. */
  function TableSize(flags: Uint8): (n: nat)
    ensures flags < 0x80 ==> n == 0
    ensures flags >= 0x80 ==> 2 <= n <= 256
  {
    if flags >= 0x80 then
      Pow2Mono(flags % 8 + 1, 8);
      Pow2Mono(1, flags % 8 + 1);
      assert Pow2(8) == 256;
      Pow2(flags % 8 + 1)
    else 0
  }

  /** The decoder, with the source's LZW loop (`AsWritten`) or the corrected one. */
  function Decode(data: seq<Uint8>, loop: Loop): (r: Result<Image, GifError>)
    ensures |data| < HeaderSize <==> r == Err(TooShort)
    ensures r == Err(BadSignature) <==> |data| >= HeaderSize && data[..6] != Signature87 && data[..6] != Signature89
    ensures r == Err(ShortColorTable) <==>
      (|data| >= HeaderSize && (data[..6] == Signature87 || data[..6] == Signature89) &&
       HeaderSize + 3 * TableSize(data[10]) > |data|)
    ensures r.Ok? ==> |data| >= HeaderSize && r.value.width == LE16At(data, 6) && r.value.height == LE16At(data, 8)
  {
    if |data| < HeaderSize then Err(TooShort)
    else if data[..6] != Signature87 && data[..6] != Signature89 then Err(BadSignature)
    else
      var n := TableSize(data[10]);
      if HeaderSize + 3 * n > |data| then Err(ShortColorTable)
      else FirstImage(data, n, loop)
  }

  /** The first image after a global colour table of `n` entries, coloured by that table. */
  function FirstImage(data: seq<Uint8>, n: nat, loop: Loop): (r: Result<Image, GifError>)
    requires HeaderSize + 3 * n <= |data|
    ensures r.Ok? ==> r.value.width == LE16At(data, 6) && r.value.height == LE16At(data, 8)
    ensures r.Err? ==> r.error != TooShort && r.error != BadSignature && r.error != ShortColorTable
  {
    match FindImage(data, HeaderSize + 3 * n)
    case None => Err(NoImage)
    case Some(off) => DecodeImage(data, off, ColorTable(data, HeaderSize, n), LE16At(data, 6), LE16At(data, 8), loop)
  }

  /*
   * Partners: a writer for data sub-blocks and a writer for whole files,
   * with lemmas that the decoder's readers take their output back.
   */

  /** Bytes as data sub-blocks of at most 255 bytes, then the zero-length terminator. */
  function EncodeSubBlocks(d: seq<Uint8>): (e: seq<Uint8>)
    ensures |e| > |d|
    decreases |d|
  {
    if |d| == 0 then [0]
    else
      var n := Min(255, |d|);
      [n] + d[..n] + EncodeSubBlocks(d[n..])
  }

  /** Gathering sub-blocks depends only on the bytes from where it starts. */
  lemma {:induction false} GatherShift(pre: seq<Uint8>, tail: seq<Uint8>, off: nat)
    ensures GatherSubBlocks(pre + tail, |pre| + off) == GatherSubBlocks(tail, off)
    decreases if off < |tail| then |tail| - off else 0
  {
    var data := pre + tail;
    if off < |tail| && tail[off] != 0 && off + 1 + tail[off] <= |tail| {
      assert data[|pre| + off] == tail[off];
      GatherShift(pre, tail, off + 1 + tail[off]);
      assert data[|pre| + off + 1..|pre| + off + 1 + tail[off]] == tail[off + 1..off + 1 + tail[off]];
    }
  }

  /** Skipping sub-blocks depends only on the bytes from where it starts. */
  lemma {:induction false} SkipShift(pre: seq<Uint8>, tail: seq<Uint8>, off: nat)
    ensures SkipSubBlocks(pre + tail, |pre| + off) == |pre| + SkipSubBlocks(tail, off)
    decreases if off < |tail| then |tail| - off else 0
  {
    if off < |tail| && tail[off] != 0 {
      SkipShift(pre, tail, off + 1 + tail[off]);
    }
  }

  /** Writing non-empty data starts with one full-or-final sub-block. */
  lemma {:induction false} EncodeFirst(d: seq<Uint8>, rest: seq<Uint8>)
    requires |d| > 0
    ensures var n := Min(255, |d|);
      1 <= n <= 255 && EncodeSubBlocks(d) + rest == ([n] + d[..n]) + (EncodeSubBlocks(d[n..]) + rest)
  {
    var n := Min(255, |d|);
    AppendAssoc([n] + d[..n], EncodeSubBlocks(d[n..]), rest);
  }

  /** One sub-block `[n] + x` in front of data that gathers to `y` gathers to `x + y`. */
  lemma {:induction false} GatherFirst(x: seq<Uint8>, more: seq<Uint8>, y: seq<Uint8>)
    requires 1 <= |x| <= 255
    requires GatherSubBlocks(more, 0) == Ok(y)
    ensures GatherSubBlocks([|x| as Uint8] + x + more, 0) == Ok(x + y)
  {
    var head: seq<Uint8> := [|x| as Uint8] + x;
    var data := head + more;
    GatherShift(head, more, 0);
    assert data[0] == |x| && data[1..1 + |x|] == x;
  }

  /** Gathering written sub-blocks gives back the bytes. */
  lemma {:induction false} GatherEncoded(d: seq<Uint8>, rest: seq<Uint8>)
    ensures GatherSubBlocks(EncodeSubBlocks(d) + rest, 0) == Ok(d)
    decreases |d|
  {
    if |d| > 0 {
      var n := Min(255, |d|);
      EncodeFirst(d, rest);
      GatherEncoded(d[n..], rest);
      GatherFirst(d[..n], EncodeSubBlocks(d[n..]) + rest, d[n..]);
      assert d[..n] + d[n..] == d;
    }
  }


  /** Skipping written sub-blocks lands just past them. */
  lemma {:induction false} SkipEncoded(d: seq<Uint8>, rest: seq<Uint8>)
    ensures SkipSubBlocks(EncodeSubBlocks(d) + rest, 0) == |EncodeSubBlocks(d)|
    decreases |d|
  {
    if |d| > 0 {
      var n := Min(255, |d|);
      var head: seq<Uint8> := [n] + d[..n];
      AppendAssoc(head, EncodeSubBlocks(d[n..]), rest);
      SkipEncoded(d[n..], rest);
      SkipShift(head, EncodeSubBlocks(d[n..]) + rest, 0);
    }
  }

  /** The scan depends only on the bytes from where it starts. */
  lemma {:induction false} FindShift(pre: seq<Uint8>, tail: seq<Uint8>, off: nat)
    ensures Shifted(pre, tail, off)
    decreases if off < |tail| then |tail| - off else 0
  {
    if off < |tail| {
      if tail[off] == ExtensionIntroducer && off + 1 < |tail| {
        var next := SkipSubBlocks(tail, off + 2);
        FindShift(pre, tail, next);
        ExtensionShifted(pre, tail, off, next);
      } else if tail[off] != ImageSeparator && tail[off] != ExtensionIntroducer && tail[off] != Trailer {
        FindShift(pre, tail, off + 1);
        OtherShifted(pre, tail, off);
      } else {
        assert (pre + tail)[|pre| + off] == tail[off];
      }
    }
  }

  /** What `FindShift` states: scanning behind a prefix finds the same image, shifted. */
  ghost predicate Shifted(pre: seq<Uint8>, tail: seq<Uint8>, off: nat)
  {
    var a := FindImage(pre + tail, |pre| + off);
    var b := FindImage(tail, off);
    a.Some? == b.Some? && (a.Some? ==> a.value == |pre| + b.value)
  }

  lemma ExtensionShifted(pre: seq<Uint8>, tail: seq<Uint8>, off: nat, next: nat)
    requires off + 1 < |tail| && tail[off] == ExtensionIntroducer
    requires next == SkipSubBlocks(tail, off + 2) && Shifted(pre, tail, next)
    ensures Shifted(pre, tail, off)
  {
    assert (pre + tail)[|pre| + off] == tail[off];
    SkipShift(pre, tail, off + 2);
  }

  lemma OtherShifted(pre: seq<Uint8>, tail: seq<Uint8>, off: nat)
    requires off < |tail| && tail[off] != ImageSeparator && tail[off] != ExtensionIntroducer && tail[off] != Trailer
    requires Shifted(pre, tail, off + 1)
    ensures Shifted(pre, tail, off)
  {
    assert (pre + tail)[|pre| + off] == tail[off];
  }

  /** The scan stops at an image separator. */
  lemma FindSeparator(rest: seq<Uint8>)
    ensures FindImage([ImageSeparator] + rest, 0) == Some(1)
  {
  }

  /** The scan stops without an image at a trailer. */
  lemma FindTrailer(rest: seq<Uint8>)
    ensures FindImage([Trailer] + rest, 0) == None
  {
  }

  /** The scan passes over an extension: its introducer, its label and its sub-blocks. */
  lemma FindSkipsExtension(kind: Uint8, d: seq<Uint8>, rest: seq<Uint8>)
    ensures var pre := [ExtensionIntroducer, kind] + EncodeSubBlocks(d);
      var a := FindImage(pre + rest, 0);
      var b := FindImage(rest, 0);
      a.Some? == b.Some? && (a.Some? ==> a.value == |pre| + b.value)
  {
    var two: seq<Uint8> := [ExtensionIntroducer, kind];
    var pre := two + EncodeSubBlocks(d);
    AppendAssoc(two, EncodeSubBlocks(d), rest);
    SkipEncoded(d, rest);
    SkipShift(two, EncodeSubBlocks(d) + rest, 0);
    assert SkipSubBlocks(pre + rest, 2) == |pre|;
    FindShift(pre, rest, 0);
  }

  /** The scan passes over any other byte. */
  lemma FindSkipsOther(b: Uint8, rest: seq<Uint8>)
    requires b != ImageSeparator && b != ExtensionIntroducer && b != Trailer
    ensures var a := FindImage([b] + rest, 0);
      var c := FindImage(rest, 0);
      a.Some? == c.Some? && (a.Some? ==> a.value == 1 + c.value)
  {
    FindShift([b], rest, 0);
  }

  /**
   * The head of a GIF89a file: header and logical screen descriptor
   * announcing a global colour table of 2^(k+1) entries, the table, and an
   * image descriptor at (0, 0) with the screen's size and no flags, then
   * the minimum code size.
   */
  function EncodeHead(width: nat, height: nat, k: nat, palette: seq<Uint8>, min: Uint8): (h: seq<Uint8>)
    requires width < 0x1_0000 && height < 0x1_0000 && k < 8
    ensures |h| == HeaderSize + |palette| + 11
  {
    [0x47, 0x49, 0x46, 0x38, 0x39, 0x61, width % 256, width / 256, height % 256, height / 256, 0x80 + k, 0, 0] +
    palette +
    [ImageSeparator, 0, 0, 0, 0, width % 256, width / 256, height % 256, height / 256, 0, min]
  }

  /** A whole file: the head, the LZW data as sub-blocks, and the trailer. */
  function EncodeGif(width: nat, height: nat, k: nat, palette: seq<Uint8>, min: Uint8, lzw: seq<Uint8>): (data: seq<Uint8>)
    requires width < 0x1_0000 && height < 0x1_0000 && k < 8
  {
    EncodeHead(width, height, k, palette, min) + (EncodeSubBlocks(lzw) + [Trailer])
  }

  /** What the decoder reads from a written head. */
  lemma HeadFields(width: nat, height: nat, k: nat, palette: seq<Uint8>, min: Uint8, rest: seq<Uint8>)
    requires width < 0x1_0000 && height < 0x1_0000 && k < 8
    ensures var data := EncodeHead(width, height, k, palette, min) + rest;
      var o := HeaderSize + |palette| + 1;
      |data| >= o + 10 && data[..6] == Signature89 &&
      LE16At(data, 6) == width && LE16At(data, 8) == height && data[10] == 0x80 + k &&
      data[o - 1] == ImageSeparator && LE16At(data, o + 4) == width && LE16At(data, o + 6) == height &&
      data[o + 9] == min
  {
    ReadLE16OfBytes(width);
    ReadLE16OfBytes(height);
  }

  /** The colour table the decoder reads from a written head is the palette's. */
  lemma HeadTable(width: nat, height: nat, k: nat, palette: seq<Uint8>, min: Uint8, rest: seq<Uint8>, n: nat)
    requires width < 0x1_0000 && height < 0x1_0000 && k < 8 && |palette| == 3 * n
    ensures var data := EncodeHead(width, height, k, palette, min) + rest;
      HeaderSize + 3 * n <= |data| && ColorTable(data, HeaderSize, n) == ColorTable(palette, 0, n)
  {
    var data := EncodeHead(width, height, k, palette, min) + rest;
    forall i | 0 <= i < 3 * n
      ensures data[HeaderSize + i] == palette[i]
    {
    }
  }

  /** A file whose header checks out and whose first block is an image goes to that image's decoding. */
  lemma DecodeReachesImage(data: seq<Uint8>, n: nat, loop: Loop)
    requires |data| >= HeaderSize && (data[..6] == Signature87 || data[..6] == Signature89)
    requires TableSize(data[10]) == n && HeaderSize + 3 * n < |data| && data[HeaderSize + 3 * n] == ImageSeparator
    ensures Decode(data, loop) ==
      DecodeImage(data, HeaderSize + 3 * n + 1, ColorTable(data, HeaderSize, n), LE16At(data, 6), LE16At(data, 8), loop)
  {
    DecodeIsFirstImage(data, loop);
    FirstImageAt(data, n, loop);
  }

  /** Past a good header and a complete colour table, decoding is decoding the first image. */
  lemma DecodeIsFirstImage(data: seq<Uint8>, loop: Loop)
    requires |data| >= HeaderSize && (data[..6] == Signature87 || data[..6] == Signature89)
    requires HeaderSize + 3 * TableSize(data[10]) <= |data|
    ensures Decode(data, loop) == FirstImage(data, TableSize(data[10]), loop)
  {
  }

  /** An image separator right after the colour table starts the first image. */
  lemma FirstImageAt(data: seq<Uint8>, n: nat, loop: Loop)
    requires HeaderSize + 3 * n < |data| && data[HeaderSize + 3 * n] == ImageSeparator
    ensures FirstImage(data, n, loop) ==
      DecodeImage(data, HeaderSize + 3 * n + 1, ColorTable(data, HeaderSize, n), LE16At(data, 6), LE16At(data, 8), loop)
  {
    assert FindImage(data, HeaderSize + 3 * n) == Some(HeaderSize + 3 * n + 1);
  }

  /** An image whose data sub-blocks and codes decode cleanly gives its colours. */
  lemma DecodeImageOk(data: seq<Uint8>, off: nat, table: seq<Uint32>, width: int, height: int, lzw: seq<Uint8>, indices: seq<Uint8>)
    requires off + 10 <= |data| && data[off + 9] <= MaxCodeSize
    requires GatherSubBlocks(data, off + 10) == Ok(lzw) && Decompress(lzw, data[off + 9]) == Some(indices)
    requires PixelCount(data, off) <= INT32_MAX
    ensures DecodeImage(data, off, table, width, height, Corrected) ==
      Ok(Image(width, height, Pixels(indices, table, PixelCount(data, off))))
  {
  }

  /**
   * How the decoder with the source's LZW loop (`a`) relates to the one
   * with the corrected loop (`c`): they fail alike, except that the
   * source's may still produce a picture, or fail the pixel-count check,
   * where the corrected one meets an empty entry; when both produce a
   * picture, it has the same size and every pixel the source's loop
   * writes has the corrected colour.
   */
  ghost predicate SourceLoopAlike(a: Result<Image, GifError>, c: Result<Image, GifError>)
  {
    (a.Err? && a.error != TooManyPixels ==> a == c) &&
    (c.Err? && c.error != EmptyEntryCode ==> a == c) &&
    (c.Ok? ==> a.Ok?) &&
    (a.Ok? && c.Ok? ==>
      a.value.width == c.value.width && a.value.height == c.value.height &&
      |a.value.pixels| == |c.value.pixels| &&
      forall i :: 0 <= i < |a.value.pixels| && a.value.pixels[i].Some? ==> a.value.pixels[i] == c.value.pixels[i])
  }

  /** Decoded indices that are a prefix of others colour the same pixels alike. */
  lemma PixelsPrefix(ia: seq<Uint8>, ic: seq<Uint8>, table: seq<Uint32>, n: nat)
    requires ia <= ic
    ensures forall i :: 0 <= i < n && Pixels(ia, table, n)[i].Some? ==> Pixels(ia, table, n)[i] == Pixels(ic, table, n)[i]
  {
  }

  /** The two LZW loops on one image. */
  lemma ImageLoopsAgree(data: seq<Uint8>, off: nat, table: seq<Uint32>, width: int, height: int)
    ensures SourceLoopAlike(DecodeImage(data, off, table, width, height, AsWritten), DecodeImage(data, off, table, width, height, Corrected))
  {
    if off + 10 <= |data| && GatherSubBlocks(data, off + 10).Ok? && data[off + 9] <= MaxCodeSize {
      var lzw, min := GatherSubBlocks(data, off + 10).value, data[off + 9];
      AsWrittenAgrees(lzw, min);
      var n := PixelCount(data, off);
      if DecompressAsWritten(lzw, min).Some? && Decompress(lzw, min).Some? && n <= INT32_MAX {
        PixelsPrefix(DecompressAsWritten(lzw, min).value, Decompress(lzw, min).value, table, n);
      }
    }
  }

  /**
   * The two LZW loops on a whole file: the source's decoder and the
   * corrected one differ only as `SourceLoopAlike` allows.
   */
  lemma LoopsAgree(data: seq<Uint8>)
    ensures SourceLoopAlike(Decode(data, AsWritten), Decode(data, Corrected))
  {
    if |data| >= HeaderSize && (data[..6] == Signature87 || data[..6] == Signature89) {
      var n := TableSize(data[10]);
      if HeaderSize + 3 * n <= |data| {
        assert Decode(data, AsWritten) == FirstImage(data, n, AsWritten);
        assert Decode(data, Corrected) == FirstImage(data, n, Corrected);
        FirstImageLoopsAgree(data, n);
      }
    }
  }

  /** The two LZW loops on the first image of a file. */
  lemma FirstImageLoopsAgree(data: seq<Uint8>, n: nat)
    requires HeaderSize + 3 * n <= |data|
    ensures SourceLoopAlike(FirstImage(data, n, AsWritten), FirstImage(data, n, Corrected))
  {
    match FindImage(data, HeaderSize + 3 * n)
    case None =>
    case Some(off) =>
      ImageLoopsAgree(data, off, ColorTable(data, HeaderSize, n), LE16At(data, 6), LE16At(data, 8));
  }


  /** The header, colour table and image descriptor of a written file, as the decoder reads them. */
  lemma EncodedHead(width: nat, height: nat, k: nat, palette: seq<Uint8>, min: Uint8, lzw: seq<Uint8>)
    requires width < 0x1_0000 && height < 0x1_0000 && k < 8 && |palette| == 3 * Pow2(k + 1)
    ensures var data := EncodeGif(width, height, k, palette, min, lzw);
      var n := Pow2(k + 1);
      var o := HeaderSize + 3 * n + 1;
      |data| >= o + 10 && data[..6] == Signature89 && TableSize(data[10]) == n &&
      data[HeaderSize + 3 * n] == ImageSeparator &&
      LE16At(data, 6) == width && LE16At(data, 8) == height &&
      ColorTable(data, HeaderSize, n) == ColorTable(palette, 0, n) &&
      LE16At(data, o + 4) == width && LE16At(data, o + 6) == height && data[o + 9] == min
  {
    var n := Pow2(k + 1);
    var blocks := EncodeSubBlocks(lzw) + [Trailer];
    HeadFields(width, height, k, palette, min, blocks);
    HeadTable(width, height, k, palette, min, blocks, n);
    TableSizeOf(k);
  }

  lemma TableSizeOf(k: nat)
    requires k < 8
    ensures TableSize(0x80 + k as Uint8) == Pow2(k + 1)
  {
    assert (0x80 + k) % 8 == k;
  }

  /** The image data of a written file, gathered from its sub-blocks, is the LZW data written. */
  lemma EncodedBlocks(width: nat, height: nat, k: nat, palette: seq<Uint8>, min: Uint8, lzw: seq<Uint8>)
    requires width < 0x1_0000 && height < 0x1_0000 && k < 8 && |palette| == 3 * Pow2(k + 1)
    ensures var data := EncodeGif(width, height, k, palette, min, lzw);
      GatherSubBlocks(data, HeaderSize + 3 * Pow2(k + 1) + 11) == Ok(lzw)
  {
    var head := EncodeHead(width, height, k, palette, min);
    var blocks := EncodeSubBlocks(lzw) + [Trailer];
    assert |head| + 0 == HeaderSize + 3 * Pow2(k + 1) + 11;
    GatherShift(head, blocks, 0);
    GatherEncoded(lzw, [Trailer]);
  }

  /**
   * Decoding a written file gives the screen's size and, pixel by pixel,
   * the palette colour of each index (opaque black past the table).
   */
  lemma DecodeEncoded(width: nat, height: nat, k: nat, palette: seq<Uint8>, min: Uint8, indices: seq<Uint8>)
    requires width < 0x1_0000 && height < 0x1_0000 && k < 8 && |palette| == 3 * Pow2(k + 1)
    requires 2 <= min <= MaxCodeSize
    requires forall i :: 0 <= i < |indices| ==> indices[i] < ClearCode(min)
    requires |indices| == width * height <= INT32_MAX
    ensures var table := ColorTable(palette, 0, Pow2(k + 1));
      var data := EncodeGif(width, height, k, palette, min, Compress(indices, min));
      Decode(data, Corrected) == Ok(Image(width, height, Pixels(indices, table, |indices|)))
  {
    DecompressCompress(indices, min);
    DecodeWritten(width, height, k, palette, min, Compress(indices, min), indices);
  }

  /** `DecodeEncoded` for any LZW data that decompresses to the indices. */
  lemma DecodeWritten(width: nat, height: nat, k: nat, palette: seq<Uint8>, min: Uint8, lzw: seq<Uint8>, indices: seq<Uint8>)
    requires width < 0x1_0000 && height < 0x1_0000 && k < 8 && |palette| == 3 * Pow2(k + 1)
    requires min <= MaxCodeSize && Decompress(lzw, min) == Some(indices)
    requires |indices| == width * height <= INT32_MAX
    ensures var table := ColorTable(palette, 0, Pow2(k + 1));
      Decode(EncodeGif(width, height, k, palette, min, lzw), Corrected) == Ok(Image(width, height, Pixels(indices, table, |indices|)))
  {
    var n := Pow2(k + 1);
    var table := ColorTable(palette, 0, n);
    EncodedLayout(width, height, k, palette, min, lzw);
    DecodeLaidOut(EncodeGif(width, height, k, palette, min, lzw), n, width, height, table, min, lzw, indices);
  }

  /**
   * The data holds a GIF89a header with an `n`-entry global table equal to
   * `table`, then an image separator, an image of `width` by `height` with
   * minimum code size `min`, and sub-blocks gathering to `lzw`.
   */
  ghost predicate LaidOut(data: seq<Uint8>, n: nat, width: nat, height: nat, table: seq<Uint32>, min: Uint8, lzw: seq<Uint8>)
  {
    var o := HeaderSize + 3 * n + 1;
    |data| >= o + 10 &&
    data[..6] == Signature89 && TableSize(data[10]) == n && data[o - 1] == ImageSeparator &&
    LE16At(data, 6) == width && LE16At(data, 8) == height && ColorTable(data, HeaderSize, n) == table &&
    LE16At(data, o + 4) == width && LE16At(data, o + 6) == height && data[o + 9] == min &&
    GatherSubBlocks(data, o + 10) == Ok(lzw)
  }

  /** A written file is laid out as its arguments say. */
  lemma EncodedLayout(width: nat, height: nat, k: nat, palette: seq<Uint8>, min: Uint8, lzw: seq<Uint8>)
    requires width < 0x1_0000 && height < 0x1_0000 && k < 8 && |palette| == 3 * Pow2(k + 1)
    ensures LaidOut(EncodeGif(width, height, k, palette, min, lzw), Pow2(k + 1), width, height,
                    ColorTable(palette, 0, Pow2(k + 1)), min, lzw)
  {
    EncodedHead(width, height, k, palette, min, lzw);
    EncodedBlocks(width, height, k, palette, min, lzw);
  }

  /** Decoding any laid-out data whose codes decode cleanly to one index per pixel. */
  lemma DecodeLaidOut(data: seq<Uint8>, n: nat, width: nat, height: nat, table: seq<Uint32>,
                      min: Uint8, lzw: seq<Uint8>, indices: seq<Uint8>)
    requires LaidOut(data, n, width, height, table, min, lzw)
    requires min <= MaxCodeSize && Decompress(lzw, min) == Some(indices)
    requires |indices| == width * height <= INT32_MAX
    ensures Decode(data, Corrected) == Ok(Image(width, height, Pixels(indices, table, |indices|)))
  {
    var o := HeaderSize + 3 * n + 1;
    DecodeReachesImage(data, n, Corrected);
    assert PixelCount(data, o) == |indices|;
    DecodeImageOk(data, o, table, width, height, lzw, indices);
  }
}
