/**
 * The table grid's column headers: column 0 is "A", 25 is "Z", 26 is
 * "AA", 27 is "AB", and so on. This is bijective base 26: the digits are
 * the letters A to Z standing for 1 to 26, with no digit for zero.
 */
module ColumnLabel {

  /** A letter from 'A' to 'Z'. */
  predicate IsLetter(c: char) {
    'A' <= c <= 'Z'
  }

  /** A well-formed label: non-empty, capital letters only. */
  predicate IsLabel(s: string) {
    |s| > 0 && forall i :: 0 <= i < |s| ==> IsLetter(s[i])
  }

  /** The letter for a digit from 0 to 25. */
  function Letter(d: int): (c: char)
    requires 0 <= d < 26
    ensures IsLetter(c) && c as int - 'A' as int == d
  {
    ('A' as int + d) as char
  }

  /**
   * The label of column `n`: the last letter is `n % 26`, and the columns
   * before it are labelled by `n / 26 - 1` when that is not negative.
   */
  function Label(n: nat): (s: string)
    decreases n
  {
    var q := n / 26 - 1;
    (if q >= 0 then Label(q) else "") + [Letter(n % 26)]
  }

  /** The column a label names: the reading of bijective base 26, less one. */
  function Value(s: string): (n: int)
    requires IsLabel(s)
    decreases |s|
  {
    var d := s[|s| - 1] as int - 'A' as int;
    if |s| == 1 then d else (Value(s[..|s| - 1]) + 1) * 26 + d
  }

  /**
   * `getColumnLabel`: the source's do-while loop, which prepends the
   * letter for `col % 26` and continues with `col / 26 - 1` while that is
   * not negative.
   */
  method ColumnLabelOf(col: nat) returns (text: string)
    ensures IsLabel(text) && Value(text) == col
    ensures text == Label(col)
  {
    var c: int := col;
    text := [];
    while true
      invariant c >= 0 && Label(col) == Label(c) + text
      decreases c
    {
      text := [Letter(c % 26)] + text;
      var q := c / 26 - 1;
      if q < 0 {
        assert Label(c) == [Letter(c % 26)];
        break;
      }
      assert Label(c) == Label(q) + [Letter(c % 26)];
      c := q;
    }
    LabelIsLabel(col);
    ValueOfLabel(col);
  }

  /*
   * Lemmas.
   */

  /** Every label is non-empty and uses only the letters A to Z. */
  lemma {:induction false} LabelIsLabel(n: nat)
    ensures IsLabel(Label(n))
    decreases n
  {
    var q := n / 26 - 1;
    if q >= 0 {
      LabelIsLabel(q);
    }
  }

  /** A label is one letter exactly for the first 26 columns. */
  lemma {:induction false} SingleLetter(n: nat)
    ensures |Label(n)| == 1 <==> n < 26
  {
    if n >= 26 {
      LabelIsLabel(n / 26 - 1);
    }
  }

  /** Reading a column's label gives the column back. */
  lemma {:induction false} ValueOfLabel(n: nat)
    ensures IsLabel(Label(n)) && Value(Label(n)) == n
    decreases n
  {
    LabelIsLabel(n);
    var q := n / 26 - 1;
    var s := Label(n);
    if q >= 0 {
      ValueOfLabel(q);
      assert s[..|s| - 1] == Label(q);
      assert Value(s) == (q + 1) * 26 + n % 26;
    } else {
      assert |s| == 1;
    }
  }

  /** Every well-formed label is the label of the column it names. */
  lemma {:induction false} LabelOfValue(s: string)
    requires IsLabel(s)
    ensures Value(s) >= 0 && Label(Value(s)) == s
    decreases |s|
  {
    var d := s[|s| - 1] as int - 'A' as int;
    if |s| == 1 {
      assert s == [Letter(d)];
    } else {
      var pre := s[..|s| - 1];
      LabelOfValue(pre);
      var v := (Value(pre) + 1) * 26 + d;
      assert v / 26 == Value(pre) + 1 && v % 26 == d;
      assert s == pre + [Letter(d)];
    }
  }

  /** Different columns have different labels. */
  lemma LabelInjective(m: nat, n: nat)
    requires Label(m) == Label(n)
    ensures m == n
  {
    ValueOfLabel(m);
    ValueOfLabel(n);
  }
}
