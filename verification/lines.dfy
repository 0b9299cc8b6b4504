/**
 * Text as a list of lines, the representation of the multi-line text box:
 * `Join` is `rebuildTextFromLines` (the lines separated by '\n', with no
 * trailing newline), `Split` is its inverse, and `Offset` maps a (line,
 * column) position to the index of the same place in the joined text.
 * The lemmas here let every line edit be stated as an edit of the joined
 * text.
 */
module TextLines {

  /** No line holds a line break. */
  predicate NoBreaks(ls: seq<string>) {
    forall i, j :: 0 <= i < |ls| && 0 <= j < |ls[i]| ==> ls[i][j] != '\n'
  }

  predicate NoBreak(s: string) {
    forall j :: 0 <= j < |s| ==> s[j] != '\n'
  }

  /** Each line preceded by a line break. */
  function Led(ls: seq<string>): string
  {
    if |ls| == 0 then "" else "\n" + ls[0] + Led(ls[1..])
  }

  /** Each line followed by a line break: the text before the line after them. */
  function Terminated(ls: seq<string>): string
  {
    if |ls| == 0 then "" else Terminated(ls[..|ls| - 1]) + ls[|ls| - 1] + "\n"
  }

  /** `rebuildTextFromLines`: the lines separated by '\n'. */
  function Join(ls: seq<string>): string
  {
    if |ls| == 0 then "" else ls[0] + Led(ls[1..])
  }

  /** The text split at every '\n'; always at least one (possibly empty) line. */
  function Split(t: string): (r: seq<string>)
    ensures |r| >= 1
    decreases |t|
  {
    if |t| == 0 then [""]
    else
      var s := Split(t[..|t| - 1]);
      if t[|t| - 1] == '\n' then s + [""] else s[..|s| - 1] + [s[|s| - 1] + [t[|t| - 1]]]
  }

  /** The index in the joined text of column `col` of line `line`. */
  function Offset(ls: seq<string>, line: nat, col: int): int
    requires line <= |ls|
  {
    |Terminated(ls[..line])| + col
  }

  /*
   * Concatenation lemmas.
   */

  lemma {:induction false} LedAppend(a: seq<string>, b: seq<string>)
    ensures Led(a + b) == Led(a) + Led(b)
    decreases |a|
  {
    if |a| > 0 {
      assert (a + b)[1..] == a[1..] + b;
      LedAppend(a[1..], b);
    } else {
      assert a + b == b;
    }
  }

  lemma {:induction false} TerminatedAppend(a: seq<string>, b: seq<string>)
    ensures Terminated(a + b) == Terminated(a) + Terminated(b)
    decreases |b|
  {
    if |b| == 0 {
      assert a + b == a;
    } else {
      var b' := b[..|b| - 1];
      assert (a + b)[..|a + b| - 1] == a + b';
      TerminatedAppend(a, b');
    }
  }

  lemma {:induction false} LedLength(ls: seq<string>)
    ensures |Led(ls)| == |Terminated(ls)|
    decreases |ls|
  {
    if |ls| > 0 {
      LedLength(ls[1..]);
      var last := ls[|ls| - 1];
      TerminatedAppend([ls[0]], ls[1..]);
      assert [ls[0]] + ls[1..] == ls;
      assert Terminated([ls[0]]) == Terminated([]) + ls[0] + "\n";
    }
  }

  /** Joining a list whose middle is `mid` (at least one line): the part before, the middle, the part after. */
  lemma {:induction false} JoinSplice(pre: seq<string>, mid: seq<string>, post: seq<string>)
    requires |mid| >= 1
    ensures Join(pre + mid + post) == Terminated(pre) + Join(mid) + Led(post)
  {
    var rest := mid + post;
    var t, j, l := Terminated(pre), Join(mid), Led(post);
    assert Join(pre + rest) == t + (j + l) by {
      JoinTail(mid, post);
      JoinHead(pre, rest);
    }
    assert pre + mid + post == pre + rest;
    assert t + (j + l) == t + j + l;
  }

  lemma {:induction false} JoinTail(mid: seq<string>, post: seq<string>)
    requires |mid| >= 1
    ensures Join(mid + post) == Join(mid) + Led(post)
  {
    assert (mid + post)[1..] == mid[1..] + post;
    LedAppend(mid[1..], post);
  }

  /** A non-empty list led by breaks is a break followed by its join. */
  lemma {:induction false} LedJoin(rest: seq<string>)
    requires |rest| >= 1
    ensures Led(rest) == "\n" + Join(rest)
  {
    var h, t := rest[0], Led(rest[1..]);
    assert Led(rest) == "\n" + h + t;
    assert Join(rest) == h + t;
    assert "\n" + h + t == "\n" + (h + t);
  }

  /** The last line ends the terminated list. */
  lemma {:induction false} TerminatedLast(pre: seq<string>)
    requires |pre| >= 1
    ensures Terminated(pre) == Terminated(pre[..|pre| - 1]) + pre[|pre| - 1] + "\n"
  {
  }

  lemma {:induction false} JoinHead(pre: seq<string>, rest: seq<string>)
    requires |rest| >= 1
    ensures Join(pre + rest) == Terminated(pre) + Join(rest)
    decreases |pre|
  {
    if |pre| == 0 {
      assert pre + rest == rest;
    } else {
      var p', x := pre[..|pre| - 1], pre[|pre| - 1];
      var xr := [x] + rest;
      assert pre + rest == p' + xr;
      JoinHead(p', xr);
      assert xr[1..] == rest;
      assert Join(xr) == x + Led(rest);
      LedJoin(rest);
      TerminatedLast(pre);
      var tp, jr := Terminated(p'), Join(rest);
      assert Join(pre + rest) == tp + (x + ("\n" + jr));
      assert tp + (x + ("\n" + jr)) == (tp + x + "\n") + jr;
    }
  }

  /** The joined text around line i: the lines before it, each terminated, then line i, then the rest, each led. */
  lemma {:induction false} JoinAround(ls: seq<string>, i: nat)
    requires i < |ls|
    ensures Join(ls) == Terminated(ls[..i]) + ls[i] + Led(ls[i + 1..])
  {
    assert ls == ls[..i] + [ls[i]] + ls[i + 1..];
    JoinSplice(ls[..i], [ls[i]], ls[i + 1..]);
  }

  /*
   * Split and Join are inverse.
   */

  /** The joined text ends with the last line. */
  lemma {:induction false} JoinLast(s: seq<string>)
    requires |s| >= 1
    ensures Join(s) == Terminated(s[..|s| - 1]) + s[|s| - 1]
  {
    JoinAround(s, |s| - 1);
    assert s[|s| - 1 + 1..] == [];
  }

  /** A new empty last line adds a break at the end. */
  lemma {:induction false} JoinAppendEmpty(s: seq<string>)
    requires |s| >= 1
    ensures Join(s + [""]) == Join(s) + "\n"
  {
    var s2 := s + [""];
    JoinLast(s2);
    assert s2[..|s2| - 1] == s;
    JoinLast(s);
    TerminatedLast(s);
  }

  /** A character appended to the last line is appended to the joined text. */
  lemma {:induction false} JoinExtendLast(s: seq<string>, c: char)
    requires |s| >= 1
    ensures Join(s[..|s| - 1] + [s[|s| - 1] + [c]]) == Join(s) + [c]
  {
    var s2 := s[..|s| - 1] + [s[|s| - 1] + [c]];
    JoinLast(s2);
    assert s2[..|s2| - 1] == s[..|s| - 1];
    JoinLast(s);
  }

  /** Joining the split text gives the text back. */
  lemma {:induction false} JoinSplit(t: string)
    ensures Join(Split(t)) == t
    decreases |t|
  {
    if |t| > 0 {
      var t', c := t[..|t| - 1], t[|t| - 1];
      var s := Split(t');
      JoinSplit(t');
      if c == '\n' {
        JoinAppendEmpty(s);
      } else {
        JoinExtendLast(s, c);
      }
      assert t == t' + [c];
    }
  }

  /** No line of a split text holds a break. */
  lemma {:induction false} SplitNoBreaks(t: string)
    ensures NoBreaks(Split(t))
    decreases |t|
  {
    if |t| > 0 {
      var t', c := t[..|t| - 1], t[|t| - 1];
      SplitNoBreaks(t');
      var s := Split(t');
      var r := Split(t);
      if c != '\n' {
        var last := s[|s| - 1] + [c];
        assert r == s[..|s| - 1] + [last];
        forall i, j | 0 <= i < |r| && 0 <= j < |r[i]| ensures r[i][j] != '\n' {
          if i < |s| - 1 {
            assert r[i] == s[i];
          } else if j < |s[|s| - 1]| {
            assert r[i][j] == s[|s| - 1][j];
          }
        }
      } else {
        assert r == s + [""];
        forall i, j | 0 <= i < |r| && 0 <= j < |r[i]| ensures r[i][j] != '\n' {
          assert r[i] == s[i];
        }
      }
    }
  }

  /** Appending text without a break extends the last line. */
  lemma {:induction false} SplitAppend(t: string, x: string)
    requires NoBreak(x)
    ensures var s := Split(t); Split(t + x) == s[..|s| - 1] + [s[|s| - 1] + x]
    decreases |x|
  {
    var s := Split(t);
    if |x| == 0 {
      assert t + x == t;
      assert s[|s| - 1] + x == s[|s| - 1];
      assert s == s[..|s| - 1] + [s[|s| - 1]];
    } else {
      var x', c := x[..|x| - 1], x[|x| - 1];
      SplitAppend(t, x');
      assert (t + x)[..|t + x| - 1] == t + x';
      assert s[|s| - 1] + x' + [c] == s[|s| - 1] + x;
    }
  }

  /** A trailing break starts a new empty line. */
  lemma {:induction false} SplitBreak(t: string)
    ensures Split(t + "\n") == Split(t) + [""]
  {
    assert (t + "\n")[..|t + "\n"| - 1] == t;
  }

  /** The last line of a list without breaks has none. */
  lemma {:induction false} LastNoBreak(ls: seq<string>)
    requires |ls| >= 1 && NoBreaks(ls)
    ensures NoBreak(ls[|ls| - 1]) && NoBreaks(ls[..|ls| - 1])
  {
    var x := ls[|ls| - 1];
    forall j | 0 <= j < |x| ensures x[j] != '\n' {
      assert ls[|ls| - 1][j] == x[j];
    }
    var p := ls[..|ls| - 1];
    forall i, j | 0 <= i < |p| && 0 <= j < |p[i]| ensures p[i][j] != '\n' {
      assert p[i] == ls[i];
    }
  }

  /** Splitting joined lines without breaks gives the lines back. */
  lemma {:induction false} SplitJoin(ls: seq<string>)
    requires |ls| >= 1 && NoBreaks(ls)
    ensures Split(Join(ls)) == ls
    decreases |ls|
  {
    var p, x := ls[..|ls| - 1], ls[|ls| - 1];
    LastNoBreak(ls);
    if |p| == 0 {
      assert ls == [x];
      assert Join(ls) == x + Led([]);
      assert Join(ls) == x;
      SplitAppend("", x);
      assert "" + x == x;
    } else {
      SplitJoin(p);
      SplitJoinStep(p, x);
      assert ls == p + [x];
    }
  }

  /** One more line: the inductive step of `SplitJoin`. */
  lemma {:induction false} SplitJoinStep(p: seq<string>, x: string)
    requires |p| >= 1 && NoBreak(x) && Split(Join(p)) == p
    ensures Split(Join(p + [x])) == p + [x]
  {
    var ls := p + [x];
    JoinLast(ls);
    assert ls[..|ls| - 1] == p;
    JoinLast(p);
    TerminatedLast(p);
    var jp := Join(p);
    assert Join(ls) == Terminated(p) + x;
    assert Terminated(p) == jp + "\n";
    SplitBreak(jp);
    SplitAppend(jp + "\n", x);
    var s := Split(jp + "\n");
    assert s == p + [""];
    assert s[..|s| - 1] == p && s[|s| - 1] + x == x;
    assert Join(ls) == jp + "\n" + x;
  }

  /*
   * Edits of one place in the joined text.
   */

  /** Inserting `m` between two parts of a middle piece inserts it at the matching index of the whole. */
  lemma {:induction false} Insert(a: string, b1: string, m: string, b2: string, c: string)
    ensures var whole := a + b1 + b2 + c;
      a + (b1 + m + b2) + c == whole[..|a| + |b1|] + m + whole[|a| + |b1|..]
  {
    var whole := a + b1 + b2 + c;
    assert whole[..|a| + |b1|] == a + b1;
    assert whole[|a| + |b1|..] == b2 + c;
  }

  /** Removing `m` from a middle piece removes it at the matching index of the whole. */
  lemma {:induction false} Remove(a: string, b1: string, m: string, b2: string, c: string)
    ensures var whole := a + (b1 + m + b2) + c;
      a + (b1 + b2) + c == whole[..|a| + |b1|] + whole[|a| + |b1| + |m|..]
  {
    var whole := a + (b1 + m + b2) + c;
    assert whole[..|a| + |b1|] == a + b1;
    assert whole[|a| + |b1| + |m|..] == b2 + c;
  }

  /** The offset of the start of line i + 1 is one past the end of line i. */
  lemma {:induction false} OffsetNextLine(ls: seq<string>, i: nat)
    requires i < |ls|
    ensures Offset(ls, i + 1, 0) == Offset(ls, i, |ls[i]|) + 1
  {
    assert ls[..i + 1][..i] == ls[..i];
  }

  /** A place in the lines: a line index and a column from 0 to the line's length. */
  predicate InLines(ls: seq<string>, line: int, col: int) {
    0 <= line < |ls| && 0 <= col <= |ls[line]|
  }

  /** (line, column) order. */
  predicate Before(l1: int, c1: int, l2: int, c2: int) {
    l1 < l2 || (l1 == l2 && c1 <= c2)
  }

  lemma {:induction false} TerminatedFirst(a: string, r: seq<string>)
    ensures Terminated([a] + r) == a + "\n" + Terminated(r)
  {
    TerminatedAppend([a], r);
    assert [a][..0] == [];
  }

  lemma {:induction false} TerminatedAtLeast(ls: seq<string>)
    ensures |Terminated(ls)| >= |ls|
    decreases |ls|
  {
    if |ls| > 0 {
      TerminatedAtLeast(ls[..|ls| - 1]);
    }
  }

  /**
   * Offsets of places in the lines lie in the joined text; only the
   * first place has offset 0 and only the last has the text's length.
   */
  lemma {:induction false} OffsetRange(ls: seq<string>, line: nat, col: int)
    requires InLines(ls, line, col)
    ensures 0 <= Offset(ls, line, col) <= |Join(ls)|
    ensures Offset(ls, line, col) == 0 <==> line == 0 && col == 0
    ensures Offset(ls, line, col) == |Join(ls)| <==> line == |ls| - 1 && col == |ls[line]|
  {
    JoinAround(ls, line);
    LedLength(ls[line + 1..]);
    TerminatedAtLeast(ls[..line]);
    TerminatedAtLeast(ls[line + 1..]);
  }

  /** Places in (line, column) order have offsets in the same order. */
  lemma {:induction false} OffsetOrdered(ls: seq<string>, l1: nat, c1: int, l2: nat, c2: int)
    requires InLines(ls, l1, c1) && InLines(ls, l2, c2)
    ensures Before(l1, c1, l2, c2) <==> Offset(ls, l1, c1) <= Offset(ls, l2, c2)
  {
    if l1 < l2 {
      OffsetBelow(ls, l1, c1, l2);
    } else if l2 < l1 {
      OffsetBelow(ls, l2, c2, l1);
    }
  }

  /** Line i is the stretch of the joined text between its first and last offsets; a break follows it unless it is the last. */
  lemma {:induction false} LineInText(ls: seq<string>, i: nat)
    requires i < |ls|
    ensures var j, s, e := Join(ls), Offset(ls, i, 0), Offset(ls, i, |ls[i]|);
      0 <= s <= e <= |j| && j[s..e] == ls[i] &&
      (i + 1 < |ls| ==> e < |j| && j[e] == '\n') && (i + 1 == |ls| ==> e == |j|)
  {
    JoinAround(ls, i);
    var rest := ls[i + 1..];
    if |rest| > 0 {
      assert Led(rest) == "\n" + rest[0] + Led(rest[1..]);
    }
  }

  /** Every place on a line lies before every place on a later line. */
  lemma {:induction false} OffsetBelow(ls: seq<string>, l1: nat, c1: int, l2: nat)
    requires InLines(ls, l1, c1) && l1 < l2 <= |ls|
    ensures Offset(ls, l1, c1) < Offset(ls, l2, 0)
    decreases l2 - l1
  {
    OffsetNextLine(ls, l1);
    if l1 + 1 < l2 {
      OffsetBelow(ls, l1 + 1, 0, l2);
    }
  }

  /*
   * The line edits of the multi-line text box, each an edit of the joined text.
   */

  /** Insert `s` into line `i` at column `col`. */
  function InsertInLine(ls: seq<string>, i: nat, col: nat, s: string): (r: seq<string>)
    requires i < |ls| && col <= |ls[i]|
    ensures |r| == |ls| && |r[i]| == |ls[i]| + |s|
    ensures r[i][..col] == ls[i][..col] && r[i][col..col + |s|] == s && r[i][col + |s|..] == ls[i][col..]
    ensures forall k :: 0 <= k < |ls| && k != i ==> r[k] == ls[k]
    ensures NoBreaks(ls) && NoBreak(s) ==> NoBreaks(r)
  {
    ls[i := ls[i][..col] + s + ls[i][col..]]
  }

  /** Erase the character at column `col` of line `i`. */
  function EraseInLine(ls: seq<string>, i: nat, col: nat): (r: seq<string>)
    requires i < |ls| && col < |ls[i]|
    ensures |r| == |ls| && |r[i]| == |ls[i]| - 1
    ensures forall k :: 0 <= k < |ls| && k != i ==> r[k] == ls[k]
    ensures NoBreaks(ls) ==> NoBreaks(r)
  {
    ls[i := ls[i][..col] + ls[i][col + 1..]]
  }

  /** Split line `i` at column `col` into two lines. */
  function BreakLine(ls: seq<string>, i: nat, col: nat): (r: seq<string>)
    requires i < |ls| && col <= |ls[i]|
    ensures |r| == |ls| + 1 && r[i] + r[i + 1] == ls[i] && |r[i]| == col
    ensures forall k :: 0 <= k < i ==> r[k] == ls[k]
    ensures forall k :: i + 1 < k < |r| ==> r[k] == ls[k - 1]
    ensures NoBreaks(ls) ==> NoBreaks(r)
  {
    assert ls[i][..col] + ls[i][col..] == ls[i];
    ls[..i] + [ls[i][..col], ls[i][col..]] + ls[i + 1..]
  }

  /** Append line `i + 1` to line `i`. */
  function MergeLines(ls: seq<string>, i: nat): (r: seq<string>)
    requires i + 1 < |ls|
    ensures |r| == |ls| - 1 && r[i] == ls[i] + ls[i + 1]
    ensures forall k :: 0 <= k < i ==> r[k] == ls[k]
    ensures forall k :: i < k < |r| ==> r[k] == ls[k + 1]
    ensures NoBreaks(ls) ==> NoBreaks(r)
  {
    ls[..i] + [ls[i] + ls[i + 1]] + ls[i + 2..]
  }

  /** Remove everything from (sl, sc) up to (el, ec): the start line's head joins the end line's tail. */
  function RemoveRange(ls: seq<string>, sl: nat, sc: nat, el: nat, ec: nat): (r: seq<string>)
    requires sl <= el < |ls| && sc <= |ls[sl]| && ec <= |ls[el]|
    ensures |r| == |ls| - (el - sl) && r[sl] == ls[sl][..sc] + ls[el][ec..]
    ensures forall k :: 0 <= k < sl ==> r[k] == ls[k]
    ensures forall k :: sl < k < |r| ==> r[k] == ls[k + el - sl]
    ensures NoBreaks(ls) ==> NoBreaks(r)
  {
    ls[..sl] + [ls[sl][..sc] + ls[el][ec..]] + ls[el + 1..]
  }

  /** The joined text with the line `i` seen as its own piece. */
  lemma {:induction false} ReplaceLine(ls: seq<string>, i: nat, x: string)
    requires i < |ls|
    ensures Join(ls[i := x]) == Terminated(ls[..i]) + x + Led(ls[i + 1..])
  {
    var r := ls[i := x];
    JoinAround(r, i);
    assert r[..i] == ls[..i] && r[i + 1..] == ls[i + 1..];
  }

  lemma {:induction false} InsertFlat(ls: seq<string>, i: nat, col: nat, s: string)
    requires i < |ls| && col <= |ls[i]|
    ensures var j := Join(ls); var off := Offset(ls, i, col);
      0 <= off <= |j| && Join(InsertInLine(ls, i, col, s)) == j[..off] + s + j[off..]
  {
    var a, b := ls[i][..col], ls[i][col..];
    assert ls[i] == a + b;
    JoinAround(ls, i);
    ReplaceLine(ls, i, a + s + b);
    Insert(Terminated(ls[..i]), a, s, b, Led(ls[i + 1..]));
  }

  lemma {:induction false} EraseFlat(ls: seq<string>, i: nat, col: nat)
    requires i < |ls| && col < |ls[i]|
    ensures var j := Join(ls); var off := Offset(ls, i, col);
      0 <= off < |j| && j[off] == ls[i][col] && Join(EraseInLine(ls, i, col)) == j[..off] + j[off + 1..]
  {
    var a, m, b := ls[i][..col], [ls[i][col]], ls[i][col + 1..];
    assert ls[i] == a + m + b;
    JoinAround(ls, i);
    ReplaceLine(ls, i, a + b);
    Remove(Terminated(ls[..i]), a, m, b, Led(ls[i + 1..]));
  }

  lemma {:induction false} BreakFlat(ls: seq<string>, i: nat, col: nat)
    requires i < |ls| && col <= |ls[i]|
    ensures var j := Join(ls); var off := Offset(ls, i, col);
      0 <= off <= |j| && Join(BreakLine(ls, i, col)) == j[..off] + "\n" + j[off..]
  {
    var a, b := ls[i][..col], ls[i][col..];
    assert ls[i] == a + b;
    JoinAround(ls, i);
    var pre, post := ls[..i], ls[i + 1..];
    assert BreakLine(ls, i, col) == pre + [a, b] + post;
    JoinSplice(pre, [a, b], post);
    assert Join([a, b]) == a + "\n" + b by {
      assert [a, b][1..] == [b];
      assert Led([b]) == "\n" + b + Led([]);
    }
    Insert(Terminated(pre), a, "\n", b, Led(post));
  }

  lemma MergeFlat(ls: seq<string>, i: nat)
    requires i + 1 < |ls|
    ensures var j := Join(ls); var off := Offset(ls, i, |ls[i]|);
      0 <= off < |j| && j[off] == '\n' && Join(MergeLines(ls, i)) == j[..off] + j[off + 1..]
  {
    var a, b := ls[i], ls[i + 1];
    var pre, post := ls[..i], ls[i + 2..];
    assert Join(ls) == Terminated(pre) + (a + "\n" + b) + Led(post) by {
      JoinPair(ls, i);
    }
    assert Join(MergeLines(ls, i)) == Terminated(pre) + (a + b) + Led(post) by {
      JoinMerged(ls, i);
    }
    Remove(Terminated(pre), a, "\n", b, Led(post));
  }

  /** The text around two neighbouring lines: what is before them, the two with a break between, what is after. */
  lemma JoinPair(ls: seq<string>, i: nat)
    requires i + 1 < |ls|
    ensures Join(ls) == Terminated(ls[..i]) + (ls[i] + "\n" + ls[i + 1]) + Led(ls[i + 2..])
  {
    var a, b := ls[i], ls[i + 1];
    assert ls == ls[..i] + [a, b] + ls[i + 2..];
    JoinSplice(ls[..i], [a, b], ls[i + 2..]);
    assert [a, b][1..] == [b];
    assert Led([b]) == "\n" + b + Led([]);
  }

  /** The text of the merged lines: what was before the two, the two joined, what was after. */
  lemma JoinMerged(ls: seq<string>, i: nat)
    requires i + 1 < |ls|
    ensures Join(MergeLines(ls, i)) == Terminated(ls[..i]) + (ls[i] + ls[i + 1]) + Led(ls[i + 2..])
  {
    var x := ls[i] + ls[i + 1];
    JoinSplice(ls[..i], [x], ls[i + 2..]);
    assert Join([x]) == x + Led([]);
  }


  lemma RemoveRangeFlat(ls: seq<string>, sl: nat, sc: nat, el: nat, ec: nat)
    requires sl <= el < |ls| && sc <= |ls[sl]| && ec <= |ls[el]| && Before(sl, sc, el, ec)
    ensures var j := Join(ls); var s, e := Offset(ls, sl, sc), Offset(ls, el, ec);
      0 <= s <= e <= |j| && Join(RemoveRange(ls, sl, sc, el, ec)) == j[..s] + j[e..]
  {
    RemoveRangeJoin(ls, sl, sc, el, ec);
    OffsetRange(ls, el, ec);
    if sl == el {
      RemoveWithin(ls, sl, sc, ec);
    } else {
      RemoveAcross(ls, sl, sc, el, ec);
    }
  }

  /** The lines after removing a range joined: the lines before it, the joined ends, the lines after it. */
  lemma RemoveRangeJoin(ls: seq<string>, sl: nat, sc: nat, el: nat, ec: nat)
    requires sl <= el < |ls| && sc <= |ls[sl]| && ec <= |ls[el]|
    ensures Join(RemoveRange(ls, sl, sc, el, ec)) == Terminated(ls[..sl]) + (ls[sl][..sc] + ls[el][ec..]) + Led(ls[el + 1..])
  {
    var pre, post := ls[..sl], ls[el + 1..];
    var x := ls[sl][..sc] + ls[el][ec..];
    assert RemoveRange(ls, sl, sc, el, ec) == pre + [x] + post;
    JoinSplice(pre, [x], post);
    assert Join([x]) == x + Led([]);
  }

  /** Cutting within one line keeps its head and its tail. */
  lemma RemoveWithin(ls: seq<string>, l: nat, sc: nat, ec: nat)
    requires l < |ls| && sc <= ec <= |ls[l]|
    ensures var j := Join(ls); var s, e := Offset(ls, l, sc), Offset(ls, l, ec);
      0 <= s <= e <= |j| && j[..s] + j[e..] == Terminated(ls[..l]) + (ls[l][..sc] + ls[l][ec..]) + Led(ls[l + 1..])
  {
    var a := ls[l];
    assert a == a[..sc] + a[sc..ec] + a[ec..];
    JoinAround(ls, l);
    Remove(Terminated(ls[..l]), a[..sc], a[sc..ec], a[ec..], Led(ls[l + 1..]));
  }

  lemma {:induction false} RemoveAcross(ls: seq<string>, sl: nat, sc: nat, el: nat, ec: nat)
    requires sl < el < |ls| && sc <= |ls[sl]| && ec <= |ls[el]|
    ensures var j := Join(ls); var s, e := Offset(ls, sl, sc), Offset(ls, el, ec);
      0 <= s <= e <= |j| && j[..s] + j[e..] == Terminated(ls[..sl]) + (ls[sl][..sc] + ls[el][ec..]) + Led(ls[el + 1..])
  {
    var a, b := ls[sl], ls[el];
    var x, y, z := Terminated(ls[..sl]), "\n" + Terminated(ls[sl + 1..el]), Led(ls[el + 1..]);
    JoinAround(ls, el);
    TerminatedThrough(ls, sl, el);
    Cut(x, a, y, b, z, sc, ec);
  }

  /** The lines before `el`, terminated, split around line `sl`. */
  lemma TerminatedThrough(ls: seq<string>, sl: nat, el: nat)
    requires sl < el <= |ls|
    ensures Terminated(ls[..el]) == Terminated(ls[..sl]) + ls[sl] + ("\n" + Terminated(ls[sl + 1..el]))
  {
    var a := ls[sl];
    assert ls[..el] == ls[..sl] + ([a] + ls[sl + 1..el]);
    TerminatedAppend(ls[..sl], [a] + ls[sl + 1..el]);
    TerminatedFirst(a, ls[sl + 1..el]);
  }

  /** Cutting from inside `a` to inside `b` keeps the head of `a` and the tail of `b`. */
  lemma {:induction false} Cut(x: string, a: string, y: string, b: string, z: string, sc: nat, ec: nat)
    requires sc <= |a| && ec <= |b|
    ensures var w := x + a + y + b + z;
      w[..|x| + sc] + w[|x| + |a| + |y| + ec..] == x + (a[..sc] + b[ec..]) + z
  {
    var w := x + a + y + b + z;
    assert w[..|x| + sc] == x + a[..sc];
    assert w[|x| + |a| + |y| + ec..] == b[ec..] + z;
  }
}
