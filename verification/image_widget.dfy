/**
 * The image widget's loader management: which decoder a path is sent to,
 * the PNG-then-GIF fallback for unrecognised extensions, and who owns the
 * loader afterwards.
 *
 * Reading a file is a parameter `files` (None when the file cannot be
 * opened or read); zlib inflate is the parameter `inflate` of the PNG
 * decoder. A loader is identified by the image it holds: `Some` when its
 * pixel buffer was produced, `None` when it holds no pixel data. Deleting
 * a loader is recorded by appending it to the widget's `released` log.
 */
module ImageWidget {
  import opened Common
  import opened Argb
  import Png
  import Gif
  import Lzw

  datatype Loader = Loader(image: Option<Image>)

  datatype Widget = Widget(loader: Option<Loader>, owns: bool, released: seq<Loader>)

  /** The decoder a path's extension selects. */
  datatype Format = PngFile | GifFile | Unrecognised

  type Files = string -> Option<seq<Uint8>>
  type Inflate = seq<Uint8> -> Option<seq<Uint8>>

  /** A widget built without a path: no loader, nothing owned. */
  const Empty: Widget := Widget(None, false, [])

  /** The C library's `tolower` in the "C" locale: only 'A'..'Z' change. */
  function ToLower(c: char): (r: char)
    ensures 'A' <= c <= 'Z' ==> 'a' <= r <= 'z' && r as int - c as int == 'a' as int - 'A' as int
    ensures !('A' <= c <= 'Z') ==> r == c
  {
    if 'A' <= c <= 'Z' then (c as int - 'A' as int + 'a' as int) as char else c
  }

  function LowerAll(s: string): (r: string)
    ensures |r| == |s|
    ensures forall i :: 0 <= i < |s| ==> r[i] == ToLower(s[i])
  {
    seq(|s|, i requires 0 <= i < |s| => ToLower(s[i]))
  }

  /** The last four characters of the path, lower-cased, pick the decoder. */
  function ExtensionOf(path: string): (f: Format)
    ensures |path| < 4 ==> f == Unrecognised
    ensures f == PngFile ==> |path| >= 4 && LowerAll(path[|path| - 4..]) == ".png"
    ensures f == GifFile ==> |path| >= 4 && LowerAll(path[|path| - 4..]) == ".gif"
  {
    if |path| < 4 then Unrecognised
    else
      var ext := LowerAll(path[|path| - 4..]);
      if ext == ".png" then PngFile
      else if ext == ".gif" then GifFile
      else Unrecognised
  }

  /** `loadPNG` on a fresh loader: the decoded image, or no pixel data. */
  function LoadPng(files: Files, inflate: Inflate, path: string): (r: Option<Image>)
    ensures r.Some? <==> files(path).Some? && Png.Decode(files(path).value, inflate).Ok?
  {
    match files(path)
    case None => None
    case Some(data) =>
      match Png.Decode(data, inflate)
      case Ok(img) => Some(img)
      case Err(_) => None
  }

  /** `loadGIF` on a fresh loader. */
  function LoadGif(files: Files, path: string): (r: Option<Image>)
    ensures r.Some? <==> files(path).Some? && Gif.Decode(files(path).value, Lzw.AsWritten).Ok?
  {
    match files(path)
    case None => None
    case Some(data) =>
      match Gif.Decode(data, Lzw.AsWritten)
      case Ok(img) => Some(img)
      case Err(_) => None
  }

  /** What happens to the current loader before it is replaced or dropped. */
  function Release(w: Widget): (r: seq<Loader>)
    ensures w.owns && w.loader.Some? ==> r == w.released + [w.loader.value]
    ensures !(w.owns && w.loader.Some?) ==> r == w.released
  {
    if w.owns && w.loader.Some? then w.released + [w.loader.value] else w.released
  }

  datatype Loaded = Loaded(widget: Widget, ok: bool)

  /** `loadImage`. */
  function LoadImage(w: Widget, files: Files, inflate: Inflate, path: string): (r: Loaded)
    ensures |Release(w)| <= |r.widget.released| <= |Release(w)| + 1
    ensures r.widget.released[..|Release(w)|] == Release(w)
    ensures ExtensionOf(path) == PngFile ==>
      r.ok == LoadPng(files, inflate, path).Some? &&
      r.widget == Widget(Some(Loader(LoadPng(files, inflate, path))), true, Release(w))
    ensures ExtensionOf(path) == GifFile ==>
      r.ok == LoadGif(files, path).Some? &&
      r.widget == Widget(Some(Loader(LoadGif(files, path))), true, Release(w))
    ensures ExtensionOf(path) == Unrecognised ==>
      r.ok == (LoadPng(files, inflate, path).Some? || LoadGif(files, path).Some?)
    ensures ExtensionOf(path) == Unrecognised && LoadPng(files, inflate, path).Some? ==>
      r.widget == Widget(Some(Loader(LoadPng(files, inflate, path))), true, Release(w))
    ensures ExtensionOf(path) == Unrecognised && LoadPng(files, inflate, path).None? && LoadGif(files, path).Some? ==>
      r.widget == Widget(Some(Loader(LoadGif(files, path))), true, Release(w))
    ensures !r.ok && ExtensionOf(path) == Unrecognised ==>
      r.widget == Widget(None, false, Release(w) + [Loader(None)])
  {
    var released := Release(w);
    match ExtensionOf(path)
    case PngFile => Loaded(Widget(Some(Loader(LoadPng(files, inflate, path))), true, released), LoadPng(files, inflate, path).Some?)
    case GifFile => Loaded(Widget(Some(Loader(LoadGif(files, path))), true, released), LoadGif(files, path).Some?)
    case Unrecognised =>
      var png := LoadPng(files, inflate, path);
      if png.Some? then Loaded(Widget(Some(Loader(png)), true, released), true)
      else
        var gif := LoadGif(files, path);
        if gif.Some? then Loaded(Widget(Some(Loader(gif)), true, released), true)
        // The failed loader is deleted too.
        else Loaded(Widget(None, false, released + [Loader(None)]), false)
  }

  /** `setImageLoader`. */
  function SetImageLoader(w: Widget, loader: Option<Loader>, takeOwnership: bool): (r: Widget)
    ensures r.loader == loader && r.owns == takeOwnership
    ensures r.released == Release(w)
  {
    Widget(loader, takeOwnership, Release(w))
  }

  /** `clearImage`. */
  function ClearImage(w: Widget): (r: Widget)
    ensures r.loader.None? && !r.owns
    ensures r.released == Release(w)
  {
    Widget(None, false, Release(w))
  }

  /** `hasImage`: a loader whose pixel buffer exists. */
  predicate HasImage(w: Widget) {
    w.loader.Some? && w.loader.value.image.Some?
  }

  /** A widget owns a loader only if it has one. */
  predicate OwnsOnlyWhatItHas(w: Widget) {
    w.owns ==> w.loader.Some?
  }

  /*
   * Lemmas.
   */

  /** The result of `loadImage` says whether the widget now shows an image. */
  lemma LoadReportsImage(w: Widget, files: Files, inflate: Inflate, path: string)
    ensures LoadImage(w, files, inflate, path).ok == HasImage(LoadImage(w, files, inflate, path).widget)
  {
  }

  /** Loading, clearing and setting a loader keep ownership consistent. */
  lemma OwnershipConsistent(w: Widget, files: Files, inflate: Inflate, path: string, l: Loader, own: bool)
    ensures OwnsOnlyWhatItHas(LoadImage(w, files, inflate, path).widget)
    ensures OwnsOnlyWhatItHas(ClearImage(w))
    ensures OwnsOnlyWhatItHas(SetImageLoader(w, Some(l), own))
  {
  }

  /** Letter case in the extension does not matter. */
  lemma ExtensionIgnoresCase(stem: string, ext: string)
    requires |ext| == 4
    ensures ExtensionOf(stem + ext) == ExtensionOf(stem + LowerAll(ext))
  {
    var p, q := stem + ext, stem + LowerAll(ext);
    assert p[|p| - 4..] == ext;
    assert q[|q| - 4..] == LowerAll(ext);
    assert LowerAll(LowerAll(ext)) == LowerAll(ext);
  }

  /** Which names are dispatched where. */
  lemma ExtensionExamples(stem: string)
    ensures ExtensionOf(stem + ".PNG") == PngFile
    ensures ExtensionOf(stem + ".Gif") == GifFile
    ensures ExtensionOf(stem + ".jpeg") == Unrecognised
    ensures ExtensionOf(".gi") == Unrecognised
  {
    var p := stem + ".PNG";
    assert p[|p| - 4..] == ".PNG";
    assert LowerAll(".PNG") == ".png";
    var g := stem + ".Gif";
    assert g[|g| - 4..] == ".Gif";
    assert LowerAll(".Gif") == ".gif";
    var j := stem + ".jpeg";
    assert j[|j| - 4..] == "jpeg";
    assert LowerAll("jpeg")[0] == 'j';
  }

  /** A file named `.png` is never read as a GIF, even if it is one. */
  lemma NoFallbackForPng(w: Widget, files: Files, inflate: Inflate, path: string)
    requires ExtensionOf(path) == PngFile
    requires files(path).Some? && |files(path).value| >= 1 && files(path).value[0] == 'G' as int
    ensures !LoadImage(w, files, inflate, path).ok
  {
    var data := files(path).value;
    assert |data| < 8 || data[..8] != Png.Signature by {
      if |data| >= 8 { assert data[..8][0] == data[0]; }
    }
  }

  /**
   * An unrecognised name holding a GIF file: the PNG attempt fails on the
   * signature, so the GIF decoder decides.
   */
  lemma FallbackReachesGif(w: Widget, files: Files, inflate: Inflate, path: string)
    requires ExtensionOf(path) == Unrecognised
    requires files(path).Some? && |files(path).value| >= 6 && files(path).value[..6] == Gif.Signature89
    ensures LoadImage(w, files, inflate, path).ok == Gif.Decode(files(path).value, Lzw.AsWritten).Ok?
    ensures Gif.Decode(files(path).value, Lzw.AsWritten).Ok? ==>
      LoadImage(w, files, inflate, path).widget.loader == Some(Loader(Some(Gif.Decode(files(path).value, Lzw.AsWritten).value)))
  {
    var data := files(path).value;
    assert data[0] == data[..6][0] == 'G' as int;
    assert |data| < 8 || data[..8] != Png.Signature by {
      if |data| >= 8 { assert data[..8][0] == data[0]; }
    }
  }
}
