/**
 * PNG scanline reconstruction (section 6 of RFC 2083) as the framework's
 * `unfilterPNG` performs it, and the packing of reconstructed samples into
 * ARGB words (`convertToRGBA`).
 *
 * The inflated image is a sequence of rows; each row is one filter-type
 * byte followed by `stride = width * bpp` sample bytes. All sample
 * arithmetic wraps modulo 256.
 */
module PngFilter {
  import opened Common

  /** The reconstructed neighbour `bpp` bytes to the left, or 0 at the row start. */
  function Left(s: seq<Uint8>, x: nat, bpp: nat): (r: Uint8)
    ensures x >= bpp && x - bpp < |s| ==> r == s[x - bpp]
    ensures x < bpp ==> r == 0
  {
    if x >= bpp && x - bpp < |s| then s[x - bpp] else 0
  }

  /**
   * The Paeth predictor: the one of left (a), above (b), upper-left (c)
   * nearest to a + b - c, ties broken in the order a, b, c.
   */
  function Paeth(a: Uint8, b: Uint8, c: Uint8): (r: Uint8)
    ensures r == a || r == b || r == c
    ensures var p := a + b - c;
            Abs(p - r) <= Abs(p - a) && Abs(p - r) <= Abs(p - b) && Abs(p - r) <= Abs(p - c)
    ensures var p := a + b - c;
            Abs(p - a) <= Abs(p - b) && Abs(p - a) <= Abs(p - c) ==> r == a
  {
    var p := a + b - c;
    var pa := Abs(p - a);
    var pb := Abs(p - b);
    var pc := Abs(p - c);
    if pa <= pb && pa <= pc then a
    else if pb <= pc then b
    else c
  }

  /**
   * The amount added to a filtered byte. Filter types other than 0..4 are
   * not recognised and add nothing.
   */
  function Predictor(ft: Uint8, a: Uint8, b: Uint8, c: Uint8): (r: Uint8)
    ensures ft == 0 || ft > 4 ==> r == 0
    ensures ft == 1 ==> r == a
    ensures ft == 2 ==> r == b
    ensures ft == 3 ==> r == (a + b) / 2 && Min(a, b) <= r <= Max(a, b)
    ensures ft == 4 ==> r == Paeth(a, b, c)
  {
    if ft == 1 then a
    else if ft == 2 then b
    else if ft == 3 then (a + b) / 2
    else if ft == 4 then Paeth(a, b, c)
    else 0
  }

  /**
   * `out` is the reconstruction of the filtered row `raw` given the already
   * reconstructed row above (`prior`): every byte is its filtered value plus
   * the predictor of its reconstructed neighbours, modulo 256.
   */
  /** One reconstructed byte: the filtered byte plus the predictor, modulo 256. */
  function ReconByte(ft: Uint8, v: Uint8, a: Uint8, b: Uint8, c: Uint8): Uint8
  {
    (v as int + Predictor(ft, a, b, c)) % 256
  }

  ghost predicate IsReconstruction(ft: Uint8, raw: seq<Uint8>, prior: seq<Uint8>, bpp: nat, out: seq<Uint8>)
    requires |prior| == |raw|
  {
    |out| == |raw| && forall x :: 0 <= x < |raw| ==> ReconstructedAt(ft, raw, prior, bpp, out, x)
  }

  /** Byte `x` of `out` is its filtered byte plus the predictor of its reconstructed neighbours. */
  ghost predicate ReconstructedAt(ft: Uint8, raw: seq<Uint8>, prior: seq<Uint8>, bpp: nat, out: seq<Uint8>, x: nat)
    requires x < |raw| == |prior| && x < |out|
  {
    out[x] == ReconByte(ft, raw[x], Left(out, x, bpp), prior[x], Left(prior, x, bpp))
  }

  /** The first `n` reconstructed bytes of a row, computed left to right. */
  function ReconPrefix(ft: Uint8, raw: seq<Uint8>, prior: seq<Uint8>, bpp: nat, n: nat): (out: seq<Uint8>)
    requires |prior| == |raw| && n <= |raw| && bpp > 0
    ensures |out| == n
    ensures forall x :: 0 <= x < n ==> ReconstructedAt(ft, raw, prior, bpp, out, x)
  {
    if n == 0 then []
    else
      var p := ReconPrefix(ft, raw, prior, bpp, n - 1);
      var out := p + [ReconByte(ft, raw[n - 1], Left(p, n - 1, bpp), prior[n - 1], Left(prior, n - 1, bpp))];
      ReconExtends(ft, raw, prior, bpp, p);
      out
  }

  /** Appending the next reconstructed byte keeps every earlier byte reconstructed. */
  lemma ReconExtends(ft: Uint8, raw: seq<Uint8>, prior: seq<Uint8>, bpp: nat, p: seq<Uint8>)
    requires |prior| == |raw| && |p| < |raw| && bpp > 0
    requires forall x :: 0 <= x < |p| ==> ReconstructedAt(ft, raw, prior, bpp, p, x)
    ensures var n := |p|;
      var out := p + [ReconByte(ft, raw[n], Left(p, n, bpp), prior[n], Left(prior, n, bpp))];
      forall x :: 0 <= x <= n ==> ReconstructedAt(ft, raw, prior, bpp, out, x)
  {
    var n := |p|;
    var out := p + [ReconByte(ft, raw[n], Left(p, n, bpp), prior[n], Left(prior, n, bpp))];
    forall x | 0 <= x <= n
      ensures ReconstructedAt(ft, raw, prior, bpp, out, x)
    {
      assert Left(out, x, bpp) == Left(p, x, bpp);
      if x < n {
        assert ReconstructedAt(ft, raw, prior, bpp, p, x) && out[x] == p[x];
      }
    }
  }

  /** One reconstructed row. */
  function ReconLine(ft: Uint8, raw: seq<Uint8>, prior: seq<Uint8>, bpp: nat): (out: seq<Uint8>)
    requires |prior| == |raw| && bpp > 0
    ensures IsReconstruction(ft, raw, prior, bpp, out)
  {
    ReconPrefix(ft, raw, prior, bpp, |raw|)
  }

  /**
   * The encoder's side (section 6 of RFC 2083): each byte minus the
   * predictor of its original neighbours, modulo 256.
   */
  function FilterLine(ft: Uint8, orig: seq<Uint8>, prior: seq<Uint8>, bpp: nat): (raw: seq<Uint8>)
    requires |prior| == |orig|
    ensures |raw| == |orig|
  {
    seq(|orig|, x requires 0 <= x < |orig| =>
      (orig[x] as int - Predictor(ft, Left(orig, x, bpp), prior[x], Left(prior, x, bpp))) % 256)
  }

  /** Reconstruction has exactly one solution: any two agree on every byte. */
  lemma {:induction false} ReconstructionUnique(ft: Uint8, raw: seq<Uint8>, prior: seq<Uint8>, bpp: nat,
                                                o1: seq<Uint8>, o2: seq<Uint8>)
    requires |prior| == |raw| && bpp > 0
    requires IsReconstruction(ft, raw, prior, bpp, o1)
    requires IsReconstruction(ft, raw, prior, bpp, o2)
    ensures o1 == o2
  {
    AgreeUpTo(ft, raw, prior, bpp, o1, o2, |raw|);
    assert |o1| == |o2|;
  }

  lemma {:induction false} AgreeUpTo(ft: Uint8, raw: seq<Uint8>, prior: seq<Uint8>, bpp: nat,
                                     o1: seq<Uint8>, o2: seq<Uint8>, n: nat)
    requires |prior| == |raw| && n <= |raw| && bpp > 0
    requires IsReconstruction(ft, raw, prior, bpp, o1)
    requires IsReconstruction(ft, raw, prior, bpp, o2)
    ensures forall k :: 0 <= k < n ==> o1[k] == o2[k]
  {
    if n > 0 {
      AgreeUpTo(ft, raw, prior, bpp, o1, o2, n - 1);
      var x := n - 1;
      assert Left(o1, x, bpp) == Left(o2, x, bpp);
      assert ReconstructedAt(ft, raw, prior, bpp, o1, x);
      assert ReconstructedAt(ft, raw, prior, bpp, o2, x);
    }
  }

  /** Reconstructing a filtered row gives back the original row, for every filter type. */
  lemma {:induction false} ReconFilterRoundTrip(ft: Uint8, orig: seq<Uint8>, prior: seq<Uint8>, bpp: nat)
    requires |prior| == |orig| && bpp > 0
    ensures ReconLine(ft, FilterLine(ft, orig, prior, bpp), prior, bpp) == orig
  {
    var raw := FilterLine(ft, orig, prior, bpp);
    forall x | 0 <= x < |raw|
      ensures ReconstructedAt(ft, raw, prior, bpp, orig, x)
    {
      var p := Predictor(ft, Left(orig, x, bpp), prior[x], Left(prior, x, bpp));
      assert raw[x] == (orig[x] as int - p) % 256;
      ModAddBack(orig[x], p);
      assert ReconByte(ft, raw[x], Left(orig, x, bpp), prior[x], Left(prior, x, bpp)) == (raw[x] as int + p) % 256;
    }
    assert IsReconstruction(ft, raw, prior, bpp, orig);
    ReconstructionUnique(ft, raw, prior, bpp, ReconLine(ft, raw, prior, bpp), orig);
  }

  lemma ModAddBack(v: Uint8, p: Uint8)
    ensures ((v as int - p) % 256 + p) % 256 == v
  {
    if v >= p {
      assert (v as int - p) % 256 == v - p;
    } else {
      assert (v as int - p) % 256 == v - p + 256;
    }
  }

  /** Filter type 0 and unrecognised filter types leave the row unchanged. */
  lemma {:induction false} UnchangedFilterTypes(ft: Uint8, raw: seq<Uint8>, prior: seq<Uint8>, bpp: nat)
    requires |prior| == |raw| && bpp > 0
    requires ft == 0 || ft > 4
    ensures ReconLine(ft, raw, prior, bpp) == raw
  {
    var out := ReconLine(ft, raw, prior, bpp);
    forall x | 0 <= x < |raw| ensures out[x] == raw[x] {
      var p := Predictor(ft, Left(out, x, bpp), prior[x], Left(prior, x, bpp));
      assert p == 0;
      assert ReconstructedAt(ft, raw, prior, bpp, out, x);
    }
  }

  /** Row `y`'s predecessor for reconstruction: the reconstructed row above, or zeros for the first row. */
  function Prior(out: seq<seq<Uint8>>, y: nat, stride: nat): (p: seq<Uint8>)
    requires y <= |out|
    requires forall k :: 0 <= k < |out| ==> |out[k]| == stride + 1
    ensures |p| == stride
    ensures y == 0 ==> p == Repeat(0, stride)
    ensures y > 0 ==> p == out[y - 1][1..]
  {
    if y == 0 then Repeat(0, stride) else out[y - 1][1..]
  }

  predicate WellShaped(rows: seq<seq<Uint8>>, stride: nat)
  {
    forall y :: 0 <= y < |rows| ==> |rows[y]| == stride + 1
  }

  /**
   * Every row reconstructed top to bottom, each against the row above as
   * already reconstructed; the filter-type byte of each row is kept as it is.
   */
  function UnfilterRows(rows: seq<seq<Uint8>>, stride: nat, bpp: nat): (out: seq<seq<Uint8>>)
    requires bpp > 0 && WellShaped(rows, stride)
    ensures |out| == |rows| && WellShaped(out, stride)
    ensures forall y :: 0 <= y < |rows| ==> out[y][0] == rows[y][0]
    decreases |rows|
  {
    if |rows| == 0 then []
    else
      var y := |rows| - 1;
      var init := UnfilterRows(rows[..y], stride, bpp);
      init + [[rows[y][0]] + ReconLine(rows[y][0], rows[y][1..], Prior(init, y, stride), bpp)]
  }

  /** Whether row `y` of `out` is the reconstruction of row `y` of `rows`. */
  ghost predicate RowReconstructed(rows: seq<seq<Uint8>>, out: seq<seq<Uint8>>, stride: nat, bpp: nat, y: nat)
    requires WellShaped(rows, stride) && WellShaped(out, stride) && |rows| == |out| && y < |rows|
  {
    out[y][0] == rows[y][0] &&
    IsReconstruction(rows[y][0], rows[y][1..], Prior(out, y, stride), bpp, out[y][1..])
  }

  /**
   * Every row of the unfiltered image keeps its filter byte and is the
   * reconstruction of its filtered bytes against the reconstructed row above
   * (zeros above the first row).
   */
  lemma {:induction false} UnfilterRowsReconstructs(rows: seq<seq<Uint8>>, stride: nat, bpp: nat, y: nat)
    requires bpp > 0 && WellShaped(rows, stride) && y < |rows|
    ensures RowReconstructed(rows, UnfilterRows(rows, stride, bpp), stride, bpp, y)
    decreases |rows|
  {
    var n := |rows| - 1;
    if y < n {
      UnfilterRowsInit(rows, stride, bpp);
      UnfilterRowsReconstructs(rows[..n], stride, bpp, y);
      RowReconstructedPrefix(rows, UnfilterRows(rows, stride, bpp), n, stride, bpp, y);
    } else {
      UnfilterRowsLast(rows, stride, bpp);
      LastRowReconstructed(rows, UnfilterRows(rows, stride, bpp), stride, bpp, y);
    }
  }

  /** Whether a row is reconstructed depends only on the rows up to it. */
  lemma RowReconstructedPrefix(rows: seq<seq<Uint8>>, out: seq<seq<Uint8>>, m: nat, stride: nat, bpp: nat, y: nat)
    requires WellShaped(rows, stride) && WellShaped(out, stride) && |rows| == |out| && y < m <= |rows|
    requires WellShaped(rows[..m], stride) && WellShaped(out[..m], stride)
    requires RowReconstructed(rows[..m], out[..m], stride, bpp, y)
    ensures RowReconstructed(rows, out, stride, bpp, y)
  {
    assert out[..m][y] == out[y] && rows[..m][y] == rows[y];
    assert Prior(out[..m], y, stride) == Prior(out, y, stride);
  }

  /** All unfiltered rows but the last are the unfiltered image of all rows but the last. */
  lemma UnfilterRowsInit(rows: seq<seq<Uint8>>, stride: nat, bpp: nat)
    requires bpp > 0 && WellShaped(rows, stride) && |rows| > 0
    ensures WellShaped(rows[..|rows| - 1], stride)
    ensures UnfilterRows(rows, stride, bpp)[..|rows| - 1] == UnfilterRows(rows[..|rows| - 1], stride, bpp)
  {
    UnfilterRowsLast(rows, stride, bpp);
  }

  /** The unfiltered image extends the unfiltered image of all rows but the last by the last row's reconstruction. */
  lemma UnfilterRowsLast(rows: seq<seq<Uint8>>, stride: nat, bpp: nat)
    requires bpp > 0 && WellShaped(rows, stride) && |rows| > 0
    ensures var n := |rows| - 1; var out := UnfilterRows(rows, stride, bpp);
      out[..n] == UnfilterRows(rows[..n], stride, bpp) &&
      out[n] == [rows[n][0]] + ReconLine(rows[n][0], rows[n][1..], Prior(out[..n], n, stride), bpp)
  {
    var n := |rows| - 1;
    var init := UnfilterRows(rows[..n], stride, bpp);
    var out := UnfilterRows(rows, stride, bpp);
    assert out == init + [[rows[n][0]] + ReconLine(rows[n][0], rows[n][1..], Prior(init, n, stride), bpp)];
    assert out[..n] == init;
  }

  /** Row `y` is reconstructed when it is the reconstruction against the rows above it. */
  lemma LastRowReconstructed(rows: seq<seq<Uint8>>, out: seq<seq<Uint8>>, stride: nat, bpp: nat, y: nat)
    requires bpp > 0 && WellShaped(rows, stride) && WellShaped(out, stride) && |rows| == |out| && y < |rows|
    requires out[y] == [rows[y][0]] + ReconLine(rows[y][0], rows[y][1..], Prior(out[..y], y, stride), bpp)
    ensures RowReconstructed(rows, out, stride, bpp, y)
  {
    assert Prior(out, y, stride) == Prior(out[..y], y, stride);
    assert out[y][1..] == ReconLine(rows[y][0], rows[y][1..], Prior(out[..y], y, stride), bpp);
  }

  /** The row above row `y` of an unfiltered image: zeros for the first row. */
  function Above(orig: seq<seq<Uint8>>, y: nat, stride: nat): (p: seq<Uint8>)
    requires y <= |orig|
    requires forall k :: 0 <= k < |orig| ==> |orig[k]| == stride
    ensures |p| == stride
  {
    if y == 0 then Repeat(0, stride) else orig[y - 1]
  }

  /**
   * The encoder's side for a whole image: row `y` filtered with filter type
   * `fts[y]` against the original row above, prefixed with its filter byte.
   */
  function FilterRows(orig: seq<seq<Uint8>>, fts: seq<Uint8>, stride: nat, bpp: nat): (rows: seq<seq<Uint8>>)
    requires |fts| == |orig|
    requires forall y :: 0 <= y < |orig| ==> |orig[y]| == stride
    ensures |rows| == |orig| && WellShaped(rows, stride)
    ensures forall y :: 0 <= y < |rows| ==> rows[y][0] == fts[y]
    decreases |orig|
  {
    if |orig| == 0 then []
    else
      var n := |orig| - 1;
      FilterRows(orig[..n], fts[..n], stride, bpp) + [[fts[n]] + FilterLine(fts[n], orig[n], Above(orig, n, stride), bpp)]
  }

  /** Each original row prefixed with the filter-type byte it was filtered with. */
  function Framed(orig: seq<seq<Uint8>>, fts: seq<Uint8>): (r: seq<seq<Uint8>>)
    requires |fts| == |orig|
    ensures |r| == |orig|
    decreases |orig|
  {
    if |orig| == 0 then []
    else
      var n := |orig| - 1;
      Framed(orig[..n], fts[..n]) + [[fts[n]] + orig[n]]
  }

  /** Row `y` of a framed image is `fts[y]` followed by `orig[y]`. */
  lemma {:induction false} FramedAt(orig: seq<seq<Uint8>>, fts: seq<Uint8>, y: nat)
    requires |fts| == |orig| && y < |orig|
    ensures Framed(orig, fts)[y] == [fts[y]] + orig[y]
    decreases |orig|
  {
    var n := |orig| - 1;
    if y < n {
      FramedAt(orig[..n], fts[..n], y);
    }
  }

  /** Unfiltering an image filtered with any filter types restores every row. */
  lemma {:induction false} UnfilterFilterRoundTrip(orig: seq<seq<Uint8>>, fts: seq<Uint8>, stride: nat, bpp: nat)
    requires |fts| == |orig| && bpp > 0
    requires forall y :: 0 <= y < |orig| ==> |orig[y]| == stride
    ensures UnfilterRows(FilterRows(orig, fts, stride, bpp), stride, bpp) == Framed(orig, fts)
    decreases |orig|
  {
    if |orig| > 0 {
      var n := |orig| - 1;
      var rows := FilterRows(orig, fts, stride, bpp);
      var rowsInit := FilterRows(orig[..n], fts[..n], stride, bpp);
      var prior := Above(orig, n, stride);
      var lastRow := [fts[n]] + FilterLine(fts[n], orig[n], prior, bpp);
      assert rows == rowsInit + [lastRow];
      assert rows[..n] == rowsInit;
      UnfilterFilterRoundTrip(orig[..n], fts[..n], stride, bpp);
      var init := UnfilterRows(rowsInit, stride, bpp);
      assert init == Framed(orig[..n], fts[..n]);
      assert Prior(init, n, stride) == prior by {
        if n > 0 {
          FramedAt(orig[..n], fts[..n], n - 1);
          assert init[n - 1][1..] == orig[n - 1];
        }
      }
      assert rows[n] == lastRow;
      assert lastRow[1..] == FilterLine(fts[n], orig[n], prior, bpp);
      ReconFilterRoundTrip(fts[n], orig[n], prior, bpp);
    }
  }
}
