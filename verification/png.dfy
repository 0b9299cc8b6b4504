/**
 * The framework's PNG decoder (`ImageLoader::parsePNG`): signature check,
 * chunk walk (sections 3.1, 3.2 and 4.1 of RFC 2083), inflate, scanline
 * reconstruction and conversion to ARGB words.
 *
 * zlib's inflate is not modelled: the decoder receives it as a function
 * `inflate` that either yields the inflated bytes or fails.
 */
module Png {
  import opened Common
  import opened Bytes
  import opened Argb
  import opened PngFilter

  const Signature: seq<Uint8> := [137, 80, 78, 71, 13, 10, 26, 10]
  const IHDR: seq<Uint8> := [73, 72, 68, 82]
  const IDAT: seq<Uint8> := [73, 68, 65, 84]
  const IEND: seq<Uint8> := [73, 69, 78, 68]

  /** One chunk: a four-byte type and its payload. The CRC is skipped, never checked. */
  datatype Chunk = Chunk(ctype: seq<Uint8>, payload: seq<Uint8>)

  /**
   * The complete chunks at the start of `data`: each is a big-endian
   * length, a type, the payload and a CRC. Scanning stops when fewer than
   * 12 bytes remain or when a chunk's 12 + length bytes would overrun.
   */
  function ScanChunks(data: seq<Uint8>): (cs: seq<Chunk>)
    ensures forall i :: 0 <= i < |cs| ==> |cs[i].ctype| == 4 && |cs[i].payload| < 0x1_0000_0000
    decreases |data|
  {
    if |data| < 12 then []
    else
      var len := BE32At(data, 0);
      if 12 + len > |data| then []
      else [Chunk(data[4..8], data[8..8 + len])] + ScanChunks(data[12 + len..])
  }

  predicate WellFormedChunk(c: Chunk)
  {
    |c.ctype| == 4 && |c.payload| < 0x1_0000_0000
  }

  /** A chunk as a PNG writer lays it out, with a zero CRC. */
  function EncodeChunk(c: Chunk): (bytes: seq<Uint8>)
    requires WellFormedChunk(c)
    ensures |bytes| == 12 + |c.payload|
  {
    var n := |c.payload|;
    [ByteBE(n, 0), ByteBE(n, 1), ByteBE(n, 2), ByteBE(n, 3)] + c.ctype + c.payload + [0, 0, 0, 0]
  }

  function EncodeChunks(cs: seq<Chunk>): seq<Uint8>
    requires forall i :: 0 <= i < |cs| ==> WellFormedChunk(cs[i])
  {
    if |cs| == 0 then [] else EncodeChunk(cs[0]) + EncodeChunks(cs[1..])
  }

  /** Scanning an encoded chunk followed by anything yields that chunk first. */
  lemma ScanEncodedChunk(c: Chunk, rest: seq<Uint8>)
    requires WellFormedChunk(c)
    ensures ScanChunks(EncodeChunk(c) + rest) == [c] + ScanChunks(rest)
  {
    var data := EncodeChunk(c) + rest;
    var n := |c.payload|;
    ReadBE32OfBytes(n);
    assert BE32At(data, 0) == n;
    assert data[4..8] == c.ctype;
    assert data[8..8 + n] == c.payload;
    assert data[12 + n..] == rest;
  }

  /** The chunk scanner inverts the chunk writer. */
  lemma {:induction false} ScanEncodeRoundTrip(cs: seq<Chunk>)
    requires forall i :: 0 <= i < |cs| ==> WellFormedChunk(cs[i])
    ensures ScanChunks(EncodeChunks(cs)) == cs
    decreases |cs|
  {
    if |cs| > 0 {
      ScanEncodedChunk(cs[0], EncodeChunks(cs[1..]));
      ScanEncodeRoundTrip(cs[1..]);
    }
  }

  /** What the chunk walk accumulates: the last header's fields and the IDAT bytes. */
  datatype Walk = Walk(width: int, height: int, bitDepth: Uint8, colorType: Uint8, idat: seq<Uint8>)

  datatype PngError =
    | BadSignature     // fewer than 8 bytes, or not the PNG signature
    | ShortHeader      // an IHDR chunk shorter than 13 bytes
    | MissingImage     // width 0, height 0 or no IDAT bytes
    | InflateFailed    // zlib rejected the IDAT stream
    | NegativeSize     // a dimension of 2^31 or more, negative once stored in an `int`
    | ShortImageData   // fewer inflated bytes than height * (stride + 1)

  /** The decoder's state before the first chunk. */
  const NoChunks: Walk := Walk(0, 0, 0, 0, [])

  /**
   * The chunk walk: IHDR sets the header fields (a later IHDR overrides),
   * IDAT payloads are appended, IEND stops, other types are skipped.
   */
  function WalkChunks(cs: seq<Chunk>, w: Walk): (r: Result<Walk, PngError>)
    requires forall i :: 0 <= i < |cs| ==> WellFormedChunk(cs[i])
    ensures r.Err? ==> r.error == ShortHeader
    decreases |cs|
  {
    if |cs| == 0 then Ok(w)
    else
      var c := cs[0];
      if c.ctype == IHDR then
        if |c.payload| < 13 then Err(ShortHeader)
        else WalkChunks(cs[1..], w.(width := ToInt32(BE32At(c.payload, 0)),
                                    height := ToInt32(BE32At(c.payload, 4)),
                                    bitDepth := c.payload[8], colorType := c.payload[9]))
      else if c.ctype == IDAT then WalkChunks(cs[1..], w.(idat := w.idat + c.payload))
      else if c.ctype == IEND then Ok(w)
      else WalkChunks(cs[1..], w)
  }

  /** The chunks before the first IEND. */
  function BeforeEnd(cs: seq<Chunk>): (r: seq<Chunk>)
    ensures |r| <= |cs| && r == cs[..|r|]
    ensures forall i :: 0 <= i < |r| ==> r[i].ctype != IEND
  {
    if |cs| == 0 || cs[0].ctype == IEND then [] else [cs[0]] + BeforeEnd(cs[1..])
  }

  /** The IDAT payloads of `cs`, concatenated in order. */
  function IdatData(cs: seq<Chunk>): seq<Uint8>
  {
    if |cs| == 0 then []
    else (if cs[0].ctype == IDAT then cs[0].payload else []) + IdatData(cs[1..])
  }

  /** The last IHDR chunk of `cs`, if any. */
  function LastHeader(cs: seq<Chunk>): (r: Option<Chunk>)
    ensures r.Some? ==> r.value in cs && r.value.ctype == IHDR
  {
    if |cs| == 0 then None
    else
      match LastHeader(cs[1..])
      case Some(h) => Some(h)
      case None => if cs[0].ctype == IHDR then Some(cs[0]) else None
  }

  predicate HasShortHeader(cs: seq<Chunk>)
  {
    exists i :: 0 <= i < |cs| && cs[i].ctype == IHDR && |cs[i].payload| < 13
  }

  /** The walk state after the header chunk `h`. */
  function WithHeader(w: Walk, h: Chunk): Walk
    requires |h.payload| >= 13
  {
    w.(width := ToInt32(BE32At(h.payload, 0)), height := ToInt32(BE32At(h.payload, 4)),
       bitDepth := h.payload[8], colorType := h.payload[9])
  }

  /**
   * The walk fails exactly when an IHDR before the first IEND is shorter than
   * 13 bytes; otherwise it yields the last such IHDR's fields and the
   * concatenated IDAT payloads before the first IEND.
   */
  lemma {:induction false} WalkChunksSpec(cs: seq<Chunk>, w: Walk)
    requires forall i :: 0 <= i < |cs| ==> WellFormedChunk(cs[i])
    ensures WalkChunks(cs, w).Err? <==> HasShortHeader(BeforeEnd(cs))
    ensures WalkChunks(cs, w).Ok? ==>
      var r := WalkChunks(cs, w).value;
      r.idat == w.idat + IdatData(BeforeEnd(cs)) &&
      match LastHeader(BeforeEnd(cs))
      case None => r.width == w.width && r.height == w.height && r.bitDepth == w.bitDepth && r.colorType == w.colorType
      case Some(h) => |h.payload| >= 13 && r == WithHeader(w, h).(idat := r.idat)
    decreases |cs|
  {
    if |cs| == 0 {
    } else if cs[0].ctype == IEND {
      assert BeforeEnd(cs) == [];
    } else if cs[0].ctype == IHDR && |cs[0].payload| < 13 {
      assert BeforeEnd(cs)[0] == cs[0];
    } else {
      var w' := Walked(w, cs[0]);
      WalkChunksSpec(cs[1..], w');
      WalkStep(cs, w, w');
    }
  }

  /** The walk state after a chunk that is neither IEND nor a short IHDR. */
  function Walked(w: Walk, c: Chunk): Walk
    requires c.ctype == IHDR ==> |c.payload| >= 13
  {
    if c.ctype == IHDR then WithHeader(w, c)
    else if c.ctype == IDAT then w.(idat := w.idat + c.payload)
    else w
  }

  /** What `WalkChunksSpec` states about a walk from `w` over `cs`. */
  ghost predicate WalkSpec(cs: seq<Chunk>, w: Walk)
    requires forall i :: 0 <= i < |cs| ==> WellFormedChunk(cs[i])
  {
    (WalkChunks(cs, w).Err? <==> HasShortHeader(BeforeEnd(cs))) &&
    (WalkChunks(cs, w).Ok? ==>
      var r := WalkChunks(cs, w).value;
      r.idat == w.idat + IdatData(BeforeEnd(cs)) &&
      match LastHeader(BeforeEnd(cs))
      case None => r.width == w.width && r.height == w.height && r.bitDepth == w.bitDepth && r.colorType == w.colorType
      case Some(h) => |h.payload| >= 13 && r == WithHeader(w, h).(idat := r.idat))
  }

  /** One step of `WalkChunksSpec`: the statement for the tail gives the statement for the whole. */
  lemma WalkStep(cs: seq<Chunk>, w: Walk, w': Walk)
    requires forall i :: 0 <= i < |cs| ==> WellFormedChunk(cs[i])
    requires |cs| > 0 && cs[0].ctype != IEND && (cs[0].ctype == IHDR ==> |cs[0].payload| >= 13)
    requires w' == Walked(w, cs[0])
    requires WalkSpec(cs[1..], w')
    ensures WalkSpec(cs, w)
  {
    BeforeEndStep(cs);
    assert WalkChunks(cs, w) == WalkChunks(cs[1..], w');
    if WalkChunks(cs, w).Ok? {
      var r := WalkChunks(cs, w).value;
      assert r.idat == w.idat + IdatData(BeforeEnd(cs)) by {
        AppendAssoc(w.idat, if cs[0].ctype == IDAT then cs[0].payload else [], IdatData(BeforeEnd(cs[1..])));
      }
    }
  }

  /** `BeforeEnd` and the summaries over it, one chunk at a time. */
  lemma BeforeEndStep(cs: seq<Chunk>)
    requires |cs| > 0 && cs[0].ctype != IEND
    ensures BeforeEnd(cs) == [cs[0]] + BeforeEnd(cs[1..])
    ensures IdatData(BeforeEnd(cs)) == (if cs[0].ctype == IDAT then cs[0].payload else []) + IdatData(BeforeEnd(cs[1..]))
    ensures LastHeader(BeforeEnd(cs)) ==
      if LastHeader(BeforeEnd(cs[1..])).Some? then LastHeader(BeforeEnd(cs[1..]))
      else if cs[0].ctype == IHDR then Some(cs[0]) else None
    ensures HasShortHeader(BeforeEnd(cs)) <==>
      (cs[0].ctype == IHDR && |cs[0].payload| < 13) || HasShortHeader(BeforeEnd(cs[1..]))
  {
    var be := BeforeEnd(cs);
    assert be[1..] == BeforeEnd(cs[1..]);
    ShortHeaderTail(be);
  }

  /** A short header in `cs` is one in its first chunk or one in the rest. */
  lemma ShortHeaderTail(cs: seq<Chunk>)
    requires |cs| > 0
    ensures HasShortHeader(cs) <==>
      (cs[0].ctype == IHDR && |cs[0].payload| < 13) || HasShortHeader(cs[1..])
  {
    if HasShortHeader(cs[1..]) {
      var i :| 0 <= i < |cs[1..]| && cs[1..][i].ctype == IHDR && |cs[1..][i].payload| < 13;
      assert cs[i + 1] == cs[1..][i];
    }
    if HasShortHeader(cs) {
      var i :| 0 <= i < |cs| && cs[i].ctype == IHDR && |cs[i].payload| < 13;
      if i > 0 {
        assert cs[1..][i - 1] == cs[i];
      }
    }
  }

  /** Bytes per pixel as the decoder assumes them: 4 for colour type 6, 3 for every other type. */
  function BytesPerPixel(colorType: Uint8): (bpp: nat)
    ensures bpp == 3 || bpp == 4
  {
    if colorType == 6 then 4 else 3
  }

  lemma {:induction false} MulBound(y: nat, n: nat, k: nat)
    requires y < n
    ensures y * k + k <= n * k
    decreases n
  {
    if y + 1 < n {
      MulBound(y, n - 1, k);
      assert n * k == (n - 1) * k + k;
    } else {
      assert n * k == y * k + k;
    }
  }

  /**
   * The inflated buffer cut into `height` rows of `rowLen` bytes; row `y`
   * starts at byte `y * rowLen`. Trailing bytes are ignored.
   */
  function SplitRows(raw: seq<Uint8>, rowLen: nat, height: nat): (rows: seq<seq<Uint8>>)
    requires height * rowLen <= |raw|
    ensures |rows| == height
    ensures forall y :: 0 <= y < height ==> |rows[y]| == rowLen
    decreases height
  {
    if height == 0 then []
    else [raw[..rowLen]] + SplitRows(raw[rowLen..], rowLen, height - 1)
  }

  /** Row `y` is exactly the bytes `[y * rowLen, (y + 1) * rowLen)`; its filter byte is `raw[y * rowLen]`. */
  lemma {:induction false} SplitRowsAt(raw: seq<Uint8>, rowLen: nat, height: nat, y: nat)
    requires height * rowLen <= |raw| && y < height
    ensures y * rowLen + rowLen <= |raw|
    ensures SplitRows(raw, rowLen, height)[y] == raw[y * rowLen .. y * rowLen + rowLen]
    decreases height
  {
    MulBound(y, height, rowLen);
    if y > 0 {
      assert (height - 1) * rowLen + rowLen == height * rowLen;
      SplitRowsAt(raw[rowLen..], rowLen, height - 1, y - 1);
      var lo := (y - 1) * rowLen;
      assert lo + rowLen == y * rowLen;
      assert raw[rowLen..][lo .. lo + rowLen] == raw[rowLen + lo .. rowLen + lo + rowLen];
    }
  }

  /**
   * Pixel `x` of a reconstructed row (filter byte first): its samples start
   * at byte `1 + x * bpp`. Colour type 6 is RGBA, 2 is RGB made opaque; for
   * any other colour type the decoder never writes the pixel.
   */
  function PixelAt(row: seq<Uint8>, x: nat, colorType: Uint8): (p: Option<Uint32>)
    requires 1 + x * BytesPerPixel(colorType) + BytesPerPixel(colorType) <= |row|
    ensures colorType == 6 ==> p == Some(Pack(row[1 + 4 * x + 3], row[1 + 4 * x], row[1 + 4 * x + 1], row[1 + 4 * x + 2]))
    ensures colorType == 2 ==> p == Some(Opaque(row[1 + 3 * x], row[1 + 3 * x + 1], row[1 + 3 * x + 2]))
    ensures colorType != 2 && colorType != 6 ==> p == None
  {
    var i := 1 + x * BytesPerPixel(colorType);
    if colorType == 6 then Some(Pack(row[i + 3], row[i], row[i + 1], row[i + 2]))
    else if colorType == 2 then Some(Opaque(row[i], row[i + 1], row[i + 2]))
    else None
  }

  /** The `width` pixels of one reconstructed row, left to right. */
  function RowPixels(row: seq<Uint8>, width: nat, colorType: Uint8): (ps: seq<Option<Uint32>>)
    requires |row| == 1 + width * BytesPerPixel(colorType)
    ensures |ps| == width
    ensures forall x :: 0 <= x < width ==>
      1 + x * BytesPerPixel(colorType) + BytesPerPixel(colorType) <= |row| && ps[x] == PixelAt(row, x, colorType)
  {
    var bpp := BytesPerPixel(colorType);
    seq(width, x requires 0 <= x < width =>
      MulBound(x, width, bpp);
      PixelAt(row, x, colorType))
  }

  /** All rows' pixels, in row-major order. */
  function Convert(rows: seq<seq<Uint8>>, width: nat, colorType: Uint8): (ps: seq<Option<Uint32>>)
    requires forall y :: 0 <= y < |rows| ==> |rows[y]| == 1 + width * BytesPerPixel(colorType)
    ensures |ps| == |rows| * width
    decreases |rows|
  {
    if |rows| == 0 then []
    else
      var n := |rows| - 1;
      Convert(rows[..n], width, colorType) + RowPixels(rows[n], width, colorType)
  }

  /** Pixel `(x, y)` sits at index `y * width + x` and is read from row `y` at byte `1 + x * bpp`. */
  lemma {:induction false} ConvertAt(rows: seq<seq<Uint8>>, width: nat, colorType: Uint8, y: nat, x: nat)
    requires forall k :: 0 <= k < |rows| ==> |rows[k]| == 1 + width * BytesPerPixel(colorType)
    requires y < |rows| && x < width
    ensures y * width + x < |rows| * width
    ensures 1 + x * BytesPerPixel(colorType) + BytesPerPixel(colorType) <= |rows[y]|
    ensures Convert(rows, width, colorType)[y * width + x] == PixelAt(rows[y], x, colorType)
    decreases |rows|
  {
    MulBound(y, |rows|, width);
    MulBound(x, width, BytesPerPixel(colorType));
    var n := |rows| - 1;
    if y < n {
      ConvertAt(rows[..n], width, colorType, y, x);
    }
  }

  /**
   * The steps after a successful chunk walk: size checks, inflate, reconstruction, conversion.
   * Both dimensions negative (each 2^31 or more before the cast) is accepted as the
   * decoder does: its row and column loops never run, so no pixel is written.
   */
  function DecodeImage(w: Walk, inflate: seq<Uint8> -> Option<seq<Uint8>>): (r: Result<Image, PngError>)
    ensures r.Ok? ==> r.value.width == w.width && r.value.height == w.height &&
                      w.width != 0 && (w.width > 0 <==> w.height > 0) &&
                      |r.value.pixels| == w.width * w.height
    ensures r.Ok? ==> w.idat != [] && inflate(w.idat).Some?
    ensures r.Ok? && w.width < 0 ==> forall i :: 0 <= i < |r.value.pixels| ==> r.value.pixels[i].None?
    ensures w.width == 0 || w.height == 0 || w.idat == [] ==> r == Err(MissingImage)
    ensures r == Err(NegativeSize) <==>
      w.width != 0 && w.height != 0 && w.idat != [] && inflate(w.idat).Some? && (w.width < 0) != (w.height < 0)
    ensures w.width < 0 && w.height < 0 && w.idat != [] && inflate(w.idat).Some? ==> r.Ok?
    ensures r != Err(ShortHeader) && r != Err(BadSignature)
  {
    if w.width == 0 || w.height == 0 || |w.idat| == 0 then Err(MissingImage)
    else
      match inflate(w.idat)
      case None => Err(InflateFailed)
      case Some(raw) =>
        if w.width < 0 && w.height < 0 then Ok(Image(w.width, w.height, Unwritten(w.width, w.height)))
        else if w.width < 0 || w.height < 0 then Err(NegativeSize)
        else Rows(w, raw)
  }

  /** The pixel buffer of an image with both dimensions negative: `width * height` words, none written. */
  function Unwritten(width: int, height: int): (ps: seq<Option<Uint32>>)
    requires width < 0 && height < 0
    ensures |ps| == width * height
    ensures forall i :: 0 <= i < |ps| ==> ps[i].None?
  {
    assert (-width) * (-height) == width * height;
    seq((-width) * (-height), _ => None)
  }

  /** Reconstruction and conversion of the inflated bytes of an image with positive dimensions. */
  function Rows(w: Walk, raw: seq<Uint8>): (r: Result<Image, PngError>)
    requires w.width > 0 && w.height > 0
    ensures r.Ok? || r == Err(ShortImageData)
    ensures r.Ok? ==> r.value.width == w.width && r.value.height == w.height &&
                      |r.value.pixels| == w.width * w.height
  {
    var stride := w.width * BytesPerPixel(w.colorType);
    if |raw| < w.height * (stride + 1) then Err(ShortImageData)
    else Ok(Image(w.width, w.height, Convert(Reconstructed(raw, w.width, w.height, w.colorType), w.width, w.colorType)))
  }

  /** The first `height` rows of the inflated bytes, each reconstructed against the one above. */
  function Reconstructed(raw: seq<Uint8>, width: nat, height: nat, colorType: Uint8): (out: seq<seq<Uint8>>)
    requires height * (width * BytesPerPixel(colorType) + 1) <= |raw|
    ensures |out| == height
    ensures forall y :: 0 <= y < height ==> |out[y]| == 1 + width * BytesPerPixel(colorType)
  {
    var bpp := BytesPerPixel(colorType);
    UnfilterRows(SplitRows(raw, width * bpp + 1, height), width * bpp, bpp)
  }

  /**
   * Pixel `(x, y)` of a decoded image is read from row `y` of the
   * reconstructed rows at byte `1 + x * bpp`; `ReconstructedRow` says where
   * that row comes from.
   */
  lemma DecodeImagePixel(w: Walk, inflate: seq<Uint8> -> Option<seq<Uint8>>, y: nat, x: nat)
      returns (img: Image, raw: seq<Uint8>, out: seq<seq<Uint8>>, i: nat)
    requires DecodeImage(w, inflate).Ok? && w.width > 0 && y < w.height && x < w.width
    ensures DecodeImage(w, inflate) == Ok(img) && inflate(w.idat) == Some(raw)
    ensures w.height * (w.width * BytesPerPixel(w.colorType) + 1) <= |raw|
    ensures out == Reconstructed(raw, w.width, w.height, w.colorType)
    ensures i == y * w.width + x < |img.pixels|
    ensures 1 + x * BytesPerPixel(w.colorType) + BytesPerPixel(w.colorType) <= |out[y]|
    ensures img.pixels[i] == PixelAt(out[y], x, w.colorType)
  {
    img := DecodeImage(w, inflate).value;
    raw := inflate(w.idat).value;
    var width: nat := w.width;
    var height: nat := w.height;
    assert img == Rows(w, raw).value;
    out := Reconstructed(raw, width, height, w.colorType);
    ConvertAt(out, width, w.colorType, y, x);
    MulNat(y, width);
    i := y * width + x;
  }

  /** Row `y` of `Reconstructed`: its filter byte and reconstructed bytes come from `raw` at `y * (stride + 1)`. */
  lemma ReconstructedRow(raw: seq<Uint8>, width: nat, height: nat, colorType: Uint8, y: nat) returns (start: nat)
    requires height * (width * BytesPerPixel(colorType) + 1) <= |raw| && y < height
    ensures start == y * (width * BytesPerPixel(colorType) + 1)
    ensures start + width * BytesPerPixel(colorType) + 1 <= |raw|
    ensures Reconstructed(raw, width, height, colorType)[y][0] == raw[start]
    ensures IsReconstruction(raw[start], raw[start + 1 .. start + width * BytesPerPixel(colorType) + 1],
                             Prior(Reconstructed(raw, width, height, colorType), y, width * BytesPerPixel(colorType)),
                             BytesPerPixel(colorType), Reconstructed(raw, width, height, colorType)[y][1..])
  {
    var bpp := BytesPerPixel(colorType);
    MulNat(width, bpp);
    var stride: nat := width * bpp;
    var rowLen: nat := stride + 1;
    MulNat(y, rowLen);
    var first: nat := y * rowLen;
    start := first;
    var rows := SplitRows(raw, rowLen, height);
    SplitRowsAt(raw, rowLen, height, y);
    assert rows[y] == raw[start .. start + rowLen];
    assert rows[y][1..] == raw[start + 1 .. start + rowLen];
    UnfilterRowsReconstructs(rows, stride, bpp, y);
  }

  /** The decoder: signature, chunk walk, then `DecodeImage`. */
  function Decode(data: seq<Uint8>, inflate: seq<Uint8> -> Option<seq<Uint8>>): (r: Result<Image, PngError>)
    ensures (|data| < 8 || data[..8] != Signature) <==> r == Err(BadSignature)
    ensures r == Err(ShortHeader) <==>
      |data| >= 8 && data[..8] == Signature && HasShortHeader(BeforeEnd(ScanChunks(data[8..])))
    ensures r.Ok? ==> r.value.width != 0 && (r.value.width > 0 <==> r.value.height > 0) &&
                      |r.value.pixels| == r.value.width * r.value.height
    ensures r.Ok? ==> |data| >= 8 && IdatData(BeforeEnd(ScanChunks(data[8..]))) != [] &&
                      inflate(IdatData(BeforeEnd(ScanChunks(data[8..])))).Some?
  {
    if |data| < 8 || data[..8] != Signature then Err(BadSignature)
    else
      var cs := ScanChunks(data[8..]);
      WalkChunksSpec(cs, NoChunks);
      match WalkChunks(cs, NoChunks)
      case Err(e) => Err(e)
      case Ok(w) =>
        assert w.idat == IdatData(BeforeEnd(cs));
        DecodeImage(w, inflate)
  }
}
