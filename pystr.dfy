/**
 * The Python string and list operations that merge.py relies on, written out:
 * `str.split` with a one-character separator, `str.strip`, `list.index`,
 * and the conversions `int(str)` and `str(int)`.
 */
module PyStr {
  import opened Wrappers

  /** `s.index(x)`: the position of the first occurrence of `x`. */
  function IndexOf<T(==)>(s: seq<T>, x: T): (i: nat)
    requires x in s
    ensures i < |s| && s[i] == x
    ensures forall j :: 0 <= j < i ==> s[j] != x
  {
    if s[0] == x then 0 else 1 + IndexOf(s[1..], x)
  }

  /** `s.startswith(prefix)`. */
  predicate StartsWith(s: string, prefix: string) {
    |prefix| <= |s| && s[..|prefix|] == prefix
  }

  /** Facts about list slices, stated once for any element type. */
  lemma SliceExtend<T>(s: seq<T>, i: nat, j: nat)
    requires i <= j < |s|
    ensures s[i..j + 1] == s[i..j] + [s[j]]
  {
  }

  lemma SliceOfSuffix<T>(s: seq<T>, i: nat, k: nat)
    requires i + k <= |s|
    ensures s[i..][..k] == s[i..i + k]
  {
  }

  lemma PrefixExtend<T>(s: seq<T>, j: nat)
    requires j < |s|
    ensures s[..j + 1] == s[..j] + [s[j]]
  {
  }

  lemma PrefixAll<T>(s: seq<T>)
    ensures s[..|s|] == s
  {
  }

  lemma SliceToEnd<T>(s: seq<T>, i: nat)
    requires i <= |s|
    ensures s[i..|s|] == s[i..]
  {
  }

  /** Replacing the middle of a concatenation by three parts that make it up. */
  lemma ConcatRegroup<T>(s: seq<T>, a: seq<T>, m: seq<T>, t: seq<T>, b: seq<T>, c: seq<T>, d: seq<T>)
    requires s == a + m + t
    requires m == b + c + d
    ensures s == a + b + c + d + t
  {
  }

  // ---------------------------------------------------------------------------
  // split and join

  /**
   * `s.split(c)`: the pieces of `s` between the occurrences of `c`. There is
   * always at least one piece, and there is more than one exactly when `c`
   * occurs in `s`.
   */
  function Split(s: string, c: char): (pieces: seq<string>)
    ensures |pieces| > 0
    ensures forall i :: 0 <= i < |pieces| ==> c !in pieces[i]
    ensures |pieces| > 1 <==> c in s
    decreases |s|
  {
    if |s| == 0 then [""]
    else
      var rest := Split(s[1..], c);
      if s[0] == c then [""] + rest
      else [[s[0]] + rest[0]] + rest[1..]
  }

  /** `c.join(pieces)`, the inverse of Split. */
  function Join(pieces: seq<string>, c: char): string
    requires |pieces| > 0
    decreases |pieces|
  {
    if |pieces| == 1 then pieces[0] else pieces[0] + [c] + Join(pieces[1..], c)
  }

  /** The first two pieces of a join of at least two pieces. */
  lemma JoinHead(pieces: seq<string>, c: char)
    requires |pieces| >= 2
    ensures Join(pieces, c) ==
      pieces[0] + [c] + pieces[1] + (if |pieces| == 2 then "" else [c] + Join(pieces[2..], c))
  {
    assert pieces[1..][1..] == pieces[2..];
  }

  /** Joining the pieces of a split gives back the original string. */
  lemma {:induction false} JoinSplit(s: string, c: char)
    ensures Join(Split(s, c), c) == s
    decreases |s|
  {
    if |s| > 0 {
      var rest := Split(s[1..], c);
      JoinSplit(s[1..], c);
      if s[0] == c {
        JoinEmptyFirst(rest, c);
      } else {
        JoinExtendFirst(s[0], rest, c);
      }
    }
  }

  /** An empty first piece contributes only its separator. */
  lemma JoinEmptyFirst(rest: seq<string>, c: char)
    requires |rest| > 0
    ensures Join([""] + rest, c) == [c] + Join(rest, c)
  {
    assert ([""] + rest)[1..] == rest;
  }

  /** A character put in front of the first piece comes first in the join. */
  lemma JoinExtendFirst(x: char, rest: seq<string>, c: char)
    requires |rest| > 0
    ensures Join([[x] + rest[0]] + rest[1..], c) == [x] + Join(rest, c)
  {
    var pieces := [[x] + rest[0]] + rest[1..];
    assert pieces[1..] == rest[1..];
  }

  /**
   * The first two pieces of a split, with the separator between them, open
   * the string; what follows is empty or starts with the separator, and is
   * empty exactly when there are only two pieces.
   */
  lemma SplitFront(s: string, c: char)
    requires |Split(s, c)| >= 2
    ensures var pieces := Split(s, c); var n := |pieces[0]| + |pieces[1]| + 1;
      && n <= |s|
      && s == pieces[0] + [c] + pieces[1] + s[n..]
      && (n < |s| ==> s[n] == c)
      && (|pieces| == 2 ==> n == |s|)
  {
    var pieces := Split(s, c);
    var n := |pieces[0]| + |pieces[1]| + 1;
    JoinSplit(s, c);
    JoinHead(pieces, c);
    var tail := if |pieces| == 2 then "" else [c] + Join(pieces[2..], c);
    assert s == pieces[0] + [c] + pieces[1] + tail;
    assert s[n..] == tail;
  }

  /** A string without the separator splits into itself alone. */
  lemma {:induction false} SplitNoSeparator(s: string, c: char)
    requires c !in s
    ensures Split(s, c) == [s]
    decreases |s|
  {
    if |s| > 0 {
      SplitNoSeparator(s[1..], c);
      assert [s[0]] + s[1..] == s;
    }
  }

  /** A separator-free piece followed by the separator splits off as the first piece. */
  lemma {:induction false} SplitAfterPiece(p: string, t: string, c: char)
    requires c !in p
    ensures Split(p + [c] + t, c) == [p] + Split(t, c)
    decreases |p|
  {
    var s := p + [c] + t;
    if |p| == 0 {
      assert s[1..] == t;
    } else {
      assert s[1..] == p[1..] + [c] + t;
      SplitAfterPiece(p[1..], t, c);
      assert [p[0]] + p[1..] == p;
    }
  }

  /** Splitting the join of separator-free pieces gives back the pieces. */
  lemma {:induction false} SplitJoin(pieces: seq<string>, c: char)
    requires |pieces| > 0
    requires forall i :: 0 <= i < |pieces| ==> c !in pieces[i]
    ensures Split(Join(pieces, c), c) == pieces
    decreases |pieces|
  {
    if |pieces| == 1 {
      SplitNoSeparator(pieces[0], c);
    } else {
      SplitJoin(pieces[1..], c);
      SplitAfterPiece(pieces[0], Join(pieces[1..], c), c);
    }
  }

  // ---------------------------------------------------------------------------
  // strip

  /** `s.lstrip(chars)` where `drop` tells which characters are in `chars`. */
  function StripLeft(s: string, drop: char -> bool): (r: string)
    ensures |r| <= |s| && r == s[|s| - |r|..]
    ensures forall k :: 0 <= k < |s| - |r| ==> drop(s[k])
    ensures |r| > 0 ==> !drop(r[0])
    decreases |s|
  {
    if |s| > 0 && drop(s[0]) then StripLeft(s[1..], drop) else s
  }

  /** `s.rstrip(chars)` where `drop` tells which characters are in `chars`. */
  function StripRight(s: string, drop: char -> bool): (r: string)
    ensures |r| <= |s| && r == s[..|r|]
    ensures forall k :: |r| <= k < |s| ==> drop(s[k])
    ensures |r| > 0 ==> !drop(r[|r| - 1])
    decreases |s|
  {
    if |s| > 0 && drop(s[|s| - 1]) then StripRight(s[..|s| - 1], drop) else s
  }

  /** `s.strip(chars)`. */
  function Strip(s: string, drop: char -> bool): string {
    StripRight(StripLeft(s, drop), drop)
  }

  predicate IsNewline(ch: char) {
    ch == '\n'
  }

  /** The characters `str.strip()` and `int()` treat as white space. */
  predicate IsSpace(ch: char) {
    ch == ' ' || ch == '\t' || ch == '\n' || ch == '\r' || ch == '\U{000B}' || ch == '\U{000C}'
  }

  /** A string that neither starts nor ends with a dropped character is its own strip. */
  lemma StripUnchanged(s: string, drop: char -> bool)
    requires |s| > 0 ==> !drop(s[0]) && !drop(s[|s| - 1])
    ensures Strip(s, drop) == s
  {
  }

  /**
   * A line as Python reads it from a text file (no newline inside, at most
   * one at the end) loses exactly its terminating newline to `strip('\n')`.
   */
  lemma StripReadLine(body: string, terminated: bool)
    requires '\n' !in body
    ensures Strip(body + (if terminated then "\n" else ""), IsNewline) == body
  {
    var line := body + (if terminated then "\n" else "");
    if |body| == 0 {
      assert terminated ==> StripLeft(line, IsNewline) == StripLeft(line[1..], IsNewline);
    } else {
      assert line[0] == body[0] && body[0] in body;
      assert StripLeft(line, IsNewline) == line;
      assert StripRight(body, IsNewline) == body by {
        assert body[|body| - 1] in body;
      }
      if terminated {
        assert line[..|line| - 1] == body;
      }
    }
  }

  // ---------------------------------------------------------------------------
  // int(str) and str(int)

  predicate IsDigit(ch: char) {
    '0' <= ch <= '9'
  }

  predicate IsDigits(s: string) {
    |s| > 0 && forall i :: 0 <= i < |s| ==> IsDigit(s[i])
  }

  /** The value of a string of decimal digits. */
  function DigitsValue(s: string): nat
    requires forall i :: 0 <= i < |s| ==> IsDigit(s[i])
    decreases |s|
  {
    if |s| == 0 then 0
    else
      assert IsDigit(s[|s| - 1]);
      DigitsValue(s[..|s| - 1]) * 10 + (s[|s| - 1] as int - '0' as int)
  }

  /**
   * `int(s)` on a string, base 10: optional surrounding white space, an
   * optional sign, and at least one decimal digit; None where Python raises
   * ValueError.
   */
  function IntOf(s: string): Option<int> {
    var t := Strip(s, IsSpace);
    if |t| > 0 && (t[0] == '+' || t[0] == '-') then
      if IsDigits(t[1..]) then
        var magnitude: int := DigitsValue(t[1..]);
        Some(if t[0] == '-' then -magnitude else magnitude)
      else None
    else if IsDigits(t) then Some(DigitsValue(t))
    else None
  }

  /** The decimal digits of a natural number, without leading zeros. */
  function DecimalDigits(n: nat): (s: string)
    ensures IsDigits(s) && DigitsValue(s) == n
    ensures s[0] != '0' || n == 0
    decreases n
  {
    var d := [('0' as int + n % 10) as char];
    if n < 10 then d
    else
      var front := DecimalDigits(n / 10);
      assert (front + d)[..|front + d| - 1] == front;
      front + d
  }

  /** `str(n)` for an integer `n`; `int` reads it back: IntOf(IntToString(n)) == Some(n). */
  function IntToString(n: int): (s: string)
    ensures IntOf(s) == Some(n)
  {
    var s := if n < 0 then "-" + DecimalDigits(-n) else DecimalDigits(n);
    StripUnchanged(s, IsSpace);
    assert n < 0 ==> s[1..] == DecimalDigits(-n);
    s
  }
}
