/**
 * The file dialog's path handling and listing. The file system is a
 * value: which paths exist and whether each is a directory, what a
 * directory lists, and what each path resolves to. The list box,
 * text box and buttons are reduced to the strings they hold.
 */
module FileDialog {
  import opened Common

  datatype Kind = File | Directory

  /**
   * A snapshot of the file system: `stat` (`kinds`), `readdir`
   * (`listings`, in the order the system returns them) and `realpath`
   * (`resolved`). A path missing from a map fails that call.
   */
  datatype FileSystem = FileSystem(kinds: map<string, Kind>, listings: map<string, seq<string>>, resolved: map<string, string>)

  /** `isDirectory`: the path exists and is a directory. */
  predicate IsDirectory(fs: FileSystem, path: string) {
    path in fs.kinds && fs.kinds[path] == Directory
  }

  /** `listDirectory`: the raw entries, or none when the directory cannot be opened. */
  function ListDirectory(fs: FileSystem, path: string): (r: seq<string>)
    ensures path !in fs.listings ==> r == []
    ensures path in fs.listings ==> r == fs.listings[path]
  {
    if path in fs.listings then fs.listings[path] else []
  }

  /** The marker in front of a directory's name in the list. */
  const DirPrefix: string := "[DIR] "

  /** Whether a list item carries the directory marker (`substr(0, 6) == "[DIR] "`). */
  predicate Marked(item: string) {
    |item| >= |DirPrefix| && item[..|DirPrefix|] == DirPrefix
  }

  /** A child path: the directory, a slash, the name. */
  function Join(dir: string, name: string): (r: string)
    ensures |r| == |dir| + 1 + |name| && r[..|dir|] == dir && r[|dir|] == '/' && r[|dir| + 1..] == name
  {
    dir + "/" + name
  }

  /** `getParentPath`: everything before the last slash, or "/" when that slash is the first character or there is none. */
  function ParentPath(path: string): (r: string)
    ensures (exists i :: 0 < i < |path| && path[i] == '/') ==> |r| < |path| && r == path[..|r|] && path[|r|] == '/'
    ensures (exists i :: 0 < i < |path| && path[i] == '/') ==> forall j :: |r| < j < |path| ==> path[j] != '/'
    ensures (forall i :: 0 < i < |path| ==> path[i] != '/') ==> r == "/"
  {
    var k := LastSlash(path);
    if k > 0 then path[..k] else "/"
  }

  /** The index of the last slash, or -1 (`find_last_of('/')`). */
  function LastSlash(s: string): (k: int)
    ensures -1 <= k < |s|
    ensures k >= 0 ==> s[k] == '/' && forall j :: k < j < |s| ==> s[j] != '/'
    ensures k == -1 ==> forall j :: 0 <= j < |s| ==> s[j] != '/'
  {
    if |s| == 0 then -1
    else if s[|s| - 1] == '/' then |s| - 1
    else LastSlash(s[..|s| - 1])
  }

  /*
   * Ordering: `std::sort` on strings compares them character by
   * character, a proper prefix first.
   */

  predicate StrLe(a: string, b: string)
    decreases |a|
  {
    |a| == 0 || (|b| > 0 && (a[0] < b[0] || (a[0] == b[0] && StrLe(a[1..], b[1..]))))
  }

  predicate Sorted(s: seq<string>) {
    forall i :: 0 <= i < |s| - 1 ==> StrLe(s[i], s[i + 1])
  }

  lemma {:induction false} StrLeTotal(a: string, b: string)
    ensures StrLe(a, b) || StrLe(b, a)
    decreases |a|
  {
    if |a| > 0 && |b| > 0 && a[0] == b[0] {
      StrLeTotal(a[1..], b[1..]);
    }
  }

  /** Insert into a sorted run, before the first element not below it. */
  function Insert(x: string, s: seq<string>): (r: seq<string>)
    requires Sorted(s)
    ensures Sorted(r) && multiset(r) == multiset(s) + multiset{x} && |r| == |s| + 1
    ensures |r| > 0 && (r[0] == x || (|s| > 0 && r[0] == s[0]))
    decreases |s|
  {
    if |s| == 0 then [x]
    else if StrLe(x, s[0]) then [x] + s
    else
      StrLeTotal(x, s[0]);
      var t := Insert(x, s[1..]);
      assert s == [s[0]] + s[1..];
      [s[0]] + t
  }

  /** `std::sort`: insertion sort, giving a sorted permutation. */
  function Sort(s: seq<string>): (r: seq<string>)
    ensures Sorted(r) && multiset(r) == multiset(s) && |r| == |s|
    decreases |s|
  {
    if |s| == 0 then []
    else
      assert s == s[..|s| - 1] + [s[|s| - 1]];
      Insert(s[|s| - 1], Sort(s[..|s| - 1]))
  }

  /*
   * The listing.
   */

  /** The entries the listing keeps: everything but "." and "..". */
  predicate Kept(name: string) {
    name != "." && name != ".."
  }

  /** The kept entries of `dir` that are directories, each behind the marker, in listing order. */
  function DirItems(fs: FileSystem, dir: string, es: seq<string>): (r: seq<string>)
    ensures forall x :: x in r <==> IsDirItem(fs, dir, es, x)
    decreases |es|
  {
    if |es| == 0 then []
    else
      var rest := DirItems(fs, dir, es[1..]);
      var e := es[0];
      var keep := Kept(e) && IsDirectory(fs, Join(dir, e));
      assert (DirPrefix + e)[|DirPrefix|..] == e;
      assert forall x :: IsDirItem(fs, dir, es, x) <==> IsDirItem(fs, dir, es[1..], x) || (keep && x == DirPrefix + e) by {
        forall x
          ensures IsDirItem(fs, dir, es, x) <==> IsDirItem(fs, dir, es[1..], x) || (keep && x == DirPrefix + e)
        {
          if Marked(x) {
            var name := x[|DirPrefix|..];
            assert name in es <==> name == e || name in es[1..];
            assert name == e ==> x == DirPrefix + e by {
              assert x == x[..|DirPrefix|] + name;
            }
          }
        }
      }
      if keep then [DirPrefix + e] + rest else rest
  }

  /** A list item for a kept directory among the entries `es` of `dir`. */
  predicate IsDirItem(fs: FileSystem, dir: string, es: seq<string>, x: string) {
    Marked(x) && x[|DirPrefix|..] in es && Kept(x[|DirPrefix|..]) && IsDirectory(fs, Join(dir, x[|DirPrefix|..]))
  }

  /** The kept entries of `dir` that are not directories, in listing order. */
  function FileItems(fs: FileSystem, dir: string, es: seq<string>): (r: seq<string>)
    ensures forall x :: x in r <==> x in es && Kept(x) && !IsDirectory(fs, Join(dir, x))
    decreases |es|
  {
    if |es| == 0 then []
    else
      var rest := FileItems(fs, dir, es[1..]);
      var e := es[0];
      assert forall y :: y in es <==> y == e || y in es[1..];
      if Kept(e) && !IsDirectory(fs, Join(dir, e)) then [e] + rest else rest
  }

  /** What `populateFileList` puts in the list: the sorted directories, then the sorted files. */
  datatype Listing = Listing(items: seq<string>, dirCount: nat)

  function Populate(fs: FileSystem, dir: string): (l: Listing)
    ensures l.dirCount <= |l.items|
    ensures Sorted(l.items[..l.dirCount]) && Sorted(l.items[l.dirCount..])
    ensures forall x :: x in l.items[..l.dirCount] <==> IsDirItem(fs, dir, ListDirectory(fs, dir), x)
    ensures forall k :: 0 <= k < l.dirCount ==> Marked(l.items[k])
    ensures forall x :: x in l.items[l.dirCount..] <==>
      x in ListDirectory(fs, dir) && Kept(x) && !IsDirectory(fs, Join(dir, x))
  {
    var es := ListDirectory(fs, dir);
    var ds := Sort(DirItems(fs, dir, es));
    var fs' := Sort(FileItems(fs, dir, es));
    SortedMembers(DirItems(fs, dir, es));
    SortedMembers(FileItems(fs, dir, es));
    var items := ds + fs';
    assert items[..|ds|] == ds && items[|ds|..] == fs';
    assert forall k :: 0 <= k < |ds| ==> items[k] == ds[k] && ds[k] in ds;
    Listing(items, |ds|)
  }

  /** Every kept entry of the directory is in the list: a directory behind the marker among the first part, a file among the rest. */
  lemma PopulateComplete(fs: FileSystem, dir: string, e: string)
    requires e in ListDirectory(fs, dir) && Kept(e)
    ensures var l := Populate(fs, dir);
      if IsDirectory(fs, Join(dir, e)) then DirPrefix + e in l.items[..l.dirCount] else e in l.items[l.dirCount..]
  {
    assert (DirPrefix + e)[|DirPrefix|..] == e;
  }

  /** Sorting keeps the same members. */
  lemma SortedMembers(s: seq<string>)
    ensures forall x :: x in Sort(s) <==> x in s
  {
    var r := Sort(s);
    forall x
      ensures x in r <==> x in s
    {
      assert x in r <==> x in multiset(r);
      assert x in s <==> x in multiset(s);
    }
  }

  /*
   * The dialog.
   */

  datatype Mode = Open | Save

  datatype Dialog = Dialog(
    mode: Mode, currentPath: string, selectedFile: string, listing: Listing,
    fileName: string, isOpen: bool, hasCallback: bool, reports: seq<string>)

  /** The dialog shows the listing of its current directory. */
  predicate Valid(fs: FileSystem, d: Dialog) {
    d.listing == Populate(fs, d.currentPath)
  }

  /**
   * The constructor: an initial path of "." or "" means the working
   * directory, when the system can tell it (`cwd`); then the list is
   * filled.
   */
  function New(fs: FileSystem, mode: Mode, initialPath: string, cwd: Option<string>, hasCallback: bool): (d: Dialog)
    ensures Valid(fs, d) && d.isOpen && d.selectedFile == "" && d.fileName == "" && d.reports == []
    ensures d.currentPath == if cwd.Some? && (initialPath == "." || initialPath == "") then cwd.value else initialPath
  {
    var path := if cwd.Some? && (initialPath == "." || initialPath == "") then cwd.value else initialPath;
    Dialog(mode, path, "", Populate(fs, path), "", true, hasCallback, [])
  }

  /**
   * `navigateToPath` (also `setCurrentPath`): an existing directory that
   * resolves becomes the current directory, by its resolved name, and
   * the list is refilled; anything else changes nothing.
   */
  function NavigateTo(fs: FileSystem, d: Dialog, path: string): (r: Dialog)
    requires Valid(fs, d)
    ensures Valid(fs, r) && r == d.(currentPath := r.currentPath, listing := r.listing)
    ensures IsDirectory(fs, path) && path in fs.resolved ==> r.currentPath == fs.resolved[path]
    ensures !(IsDirectory(fs, path) && path in fs.resolved) ==> r == d
  {
    if IsDirectory(fs, path) && path in fs.resolved then
      var p := fs.resolved[path];
      d.(currentPath := p, listing := Populate(fs, p))
    else d
  }

  /** The ".." button. */
  function GoUp(fs: FileSystem, d: Dialog): (r: Dialog)
    requires Valid(fs, d)
    ensures Valid(fs, r)
    ensures IsDirectory(fs, ParentPath(d.currentPath)) && ParentPath(d.currentPath) in fs.resolved ==>
      r.currentPath == fs.resolved[ParentPath(d.currentPath)]
  {
    NavigateTo(fs, d, ParentPath(d.currentPath))
  }

  /**
   * `handleFileSelection` as written: an item with the directory marker
   * is entered as a directory, whatever it was listed as; any other item
   * fills the name box and becomes the selected file.
   */
  function SelectItemAsWritten(fs: FileSystem, d: Dialog, item: string): (r: Dialog)
    requires Valid(fs, d)
    ensures Valid(fs, r)
    ensures Marked(item) ==> r == NavigateTo(fs, d, Join(d.currentPath, item[|DirPrefix|..]))
    ensures !Marked(item) ==> r == d.(fileName := item, selectedFile := Join(d.currentPath, item))
  {
    if Marked(item) then NavigateTo(fs, d, Join(d.currentPath, item[|DirPrefix|..]))
    else d.(fileName := item, selectedFile := Join(d.currentPath, item))
  }

  /**
   * Selection by list position: the first `dirCount` items are the
   * directories, the rest are files whatever their names. Out of range,
   * nothing happens (the list box reports only items it holds).
   */
  function SelectItem(fs: FileSystem, d: Dialog, index: int): (r: Dialog)
    requires Valid(fs, d)
    ensures Valid(fs, r)
    ensures 0 <= index < d.listing.dirCount ==>
      r == NavigateTo(fs, d, Join(d.currentPath, d.listing.items[index][|DirPrefix|..]))
    ensures d.listing.dirCount <= index < |d.listing.items| ==>
      r == d.(fileName := d.listing.items[index], selectedFile := Join(d.currentPath, d.listing.items[index]))
    ensures !(0 <= index < |d.listing.items|) ==> r == d
  {
    if !(0 <= index < |d.listing.items|) then d
    else
      var item := d.listing.items[index];
      if index < d.listing.dirCount then NavigateTo(fs, d, Join(d.currentPath, item[|DirPrefix|..]))
      else d.(fileName := item, selectedFile := Join(d.currentPath, item))
  }

  /** The path the OK button would choose: an absolute name as it is, else joined to the current directory. */
  function ChosenPath(d: Dialog): (p: string)
    requires d.fileName != ""
    ensures d.fileName[0] == '/' ==> p == d.fileName
    ensures d.fileName[0] != '/' ==> p == Join(d.currentPath, d.fileName)
  {
    if d.fileName[0] == '/' then d.fileName else Join(d.currentPath, d.fileName)
  }

  /** Whether the OK button accepts a path: in open mode it must be an existing non-directory. */
  predicate Acceptable(fs: FileSystem, mode: Mode, path: string) {
    mode == Save || (path in fs.kinds && fs.kinds[path] != Directory)
  }

  /**
   * `handleOkButton`. An empty name does nothing. Otherwise the chosen
   * path becomes the selected file; in open mode a missing file or a
   * directory stops there, with the dialog still open; else it is
   * reported and the dialog closes.
   */
  function Ok(fs: FileSystem, d: Dialog): (r: Dialog)
    requires Valid(fs, d)
    ensures Valid(fs, r)
    ensures d.fileName == "" ==> r == d
    ensures d.fileName != "" ==> r.selectedFile == ChosenPath(d)
    ensures d.fileName != "" && !Acceptable(fs, d.mode, ChosenPath(d)) ==> r == d.(selectedFile := ChosenPath(d))
    ensures d.fileName != "" && Acceptable(fs, d.mode, ChosenPath(d)) ==>
      !r.isOpen && r.reports == d.reports + (if d.hasCallback then [ChosenPath(d)] else [])
  {
    if d.fileName == "" then d
    else
      var path := ChosenPath(d);
      if !Acceptable(fs, d.mode, path) then d.(selectedFile := path)
      else d.(selectedFile := path, isOpen := false, reports := d.reports + (if d.hasCallback then [path] else []))
  }

  /** `handleCancelButton`: no selection, and the dialog closes. */
  function Cancel(d: Dialog): (r: Dialog)
    ensures r.selectedFile == "" && !r.isOpen
    ensures r == d.(selectedFile := "", isOpen := false)
  {
    d.(selectedFile := "", isOpen := false)
  }

  /*
   * Lemmas.
   */

  /** The parent of a child path is the directory it was joined to. */
  lemma ParentOfJoin(dir: string, name: string)
    requires |dir| > 0 && forall j :: 0 <= j < |name| ==> name[j] != '/'
    ensures ParentPath(Join(dir, name)) == dir
  {
    var p := Join(dir, name);
    assert p[|dir|] == '/';
    var k := LastSlash(p);
    assert k == |dir| by {
      forall j | |dir| < j < |p|
        ensures p[j] != '/'
      {
        assert p[j] == name[j - |dir| - 1];
      }
    }
  }

  /** Going up from a path with a slash past its first character gives a strictly shorter path; otherwise the root. */
  lemma ParentShrinks(path: string)
    ensures ParentPath(path) == "/" || |ParentPath(path)| < |path|
  {
  }

  /** The root is its own parent. */
  lemma RootIsTop()
    ensures ParentPath("/") == "/"
  {
  }

  /** Entering a listed directory and going up comes back, when paths resolve to themselves. */
  lemma EnterThenUp(fs: FileSystem, d: Dialog, k: int)
    requires Valid(fs, d) && |d.currentPath| > 0 && 0 <= k < d.listing.dirCount
    requires var name := d.listing.items[k][|DirPrefix|..]; forall j :: 0 <= j < |name| ==> name[j] != '/'
    requires forall p :: IsDirectory(fs, p) ==> p in fs.resolved && fs.resolved[p] == p
    requires IsDirectory(fs, d.currentPath)
    ensures GoUp(fs, SelectItem(fs, d, k)).currentPath == d.currentPath
  {
    var child := Join(d.currentPath, d.listing.items[k][|DirPrefix|..]);
    var e := SelectItem(fs, d, k);
    assert d.listing.items[k] in d.listing.items[..d.listing.dirCount];
    assert e.currentPath == child;
    ParentOfJoin(d.currentPath, d.listing.items[k][|DirPrefix|..]);
  }

  /** Selecting a file's position selects that file, whatever its name. */
  lemma SelectFileSelects(fs: FileSystem, d: Dialog, k: int)
    requires Valid(fs, d) && d.listing.dirCount <= k < |d.listing.items|
    ensures var r := SelectItem(fs, d, k);
      r.selectedFile == Join(d.currentPath, d.listing.items[k]) &&
      d.listing.items[k] in ListDirectory(fs, d.currentPath) &&
      !IsDirectory(fs, r.selectedFile)
  {
  }

  /** A directory "/d" holding one regular file named "[DIR] x". */
  function MarkedFileSystem(): (fs: FileSystem)
    ensures ListDirectory(fs, "/d") == ["[DIR] x"] && !IsDirectory(fs, "/d/[DIR] x") && !IsDirectory(fs, "/d/x")
  {
    FileSystem(map["/d" := Directory, "/d/[DIR] x" := File], map["/d" := ["[DIR] x"]], map["/d" := "/d"])
  }

  /**
   * A file whose name starts with the directory marker is listed as a
   * file, yet selecting it as written looks for a directory "x" and
   * selects nothing; selecting it by position selects it.
   */
  lemma MarkedFileIsNotSelected()
    ensures var fs := MarkedFileSystem();
      var d := New(fs, Open, "/d", None, false);
      d.listing == Listing(["[DIR] x"], 0) &&
      SelectItemAsWritten(fs, d, "[DIR] x").selectedFile == "" &&
      SelectItem(fs, d, 0).selectedFile == "/d/[DIR] x"
  {
    var fs := MarkedFileSystem();
    MarkedListing(fs);
    var d := New(fs, Open, "/d", None, false);
    MarkedAsWritten(fs, d);
    MarkedByPosition(fs, d);
  }

  /** As written, the marked file is looked up as the directory "/d/x", which does not exist. */
  lemma MarkedAsWritten(fs: FileSystem, d: Dialog)
    requires fs == MarkedFileSystem() && Valid(fs, d) && d.currentPath == "/d" && d.selectedFile == ""
    ensures SelectItemAsWritten(fs, d, "[DIR] x").selectedFile == ""
  {
    MarkedPaths();
    assert !IsDirectory(fs, "/d/x");
  }

  /** The paths of the marked-file example. */
  lemma MarkedPaths()
    ensures Marked("[DIR] x") && "[DIR] x"[|DirPrefix|..] == "x"
    ensures Join("/d", "x") == "/d/x" && Join("/d", "[DIR] x") == "/d/[DIR] x"
  {
    assert "[DIR] x"[..|DirPrefix|] == DirPrefix;
    assert "/d" + "/" + "x" == "/d/x";
    assert "/d" + "/" + "[DIR] x" == "/d/[DIR] x";
  }

  /** By position, the marked file, listed first among no directories, is selected. */
  lemma MarkedByPosition(fs: FileSystem, d: Dialog)
    requires fs == MarkedFileSystem() && d.currentPath == "/d" && d.listing == Listing(["[DIR] x"], 0) && Valid(fs, d)
    ensures SelectItem(fs, d, 0).selectedFile == "/d/[DIR] x"
  {
    MarkedPaths();
  }

  /** The marked file system's "/d" lists its one file, and no directory. */
  lemma MarkedListing(fs: FileSystem)
    requires fs == MarkedFileSystem()
    ensures Populate(fs, "/d") == Listing(["[DIR] x"], 0)
  {
    var es := ListDirectory(fs, "/d");
    assert Join("/d", "[DIR] x") == "/d/[DIR] x";
    assert Kept("[DIR] x");
    assert DirItems(fs, "/d", es[1..]) == [];
    assert DirItems(fs, "/d", es) == [];
    assert FileItems(fs, "/d", es[1..]) == [];
    assert FileItems(fs, "/d", es) == ["[DIR] x"];
    assert Sort(["[DIR] x"]) == ["[DIR] x"] by {
      assert ["[DIR] x"][..0] == [];
    }
  }
}
