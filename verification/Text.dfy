/** The str methods the charm uses: split, strip, lower and join. */
module Text {

  /** The characters str.split() and str.strip() treat as blank. */
  predicate IsSpace(c: char) {
    || '\t' <= c <= '\r' || '\U{1C}' <= c <= ' ' || c == '\U{85}' || c == '\U{A0}' || c == '\U{1680}'
    || '\U{2000}' <= c <= '\U{200A}' || c == '\U{2028}' || c == '\U{2029}' || c == '\U{202F}'
    || c == '\U{205F}' || c == '\U{3000}'
  }

  function LowerChar(c: char): char {
    if 'A' <= c <= 'Z' then c - 'A' + 'a' else c
  }

  function Lower(s: string): (r: string)
    ensures |r| == |s|
    ensures forall i | 0 <= i < |s| :: r[i] == LowerChar(s[i])
  {
    seq(|s|, i requires 0 <= i < |s| => LowerChar(s[i]))
  }

  function StripLeft(s: string): string {
    if s != "" && IsSpace(s[0]) then StripLeft(s[1..]) else s
  }

  function StripRight(s: string): string {
    if s != "" && IsSpace(s[|s| - 1]) then StripRight(s[..|s| - 1]) else s
  }

  function Strip(s: string): string {
    StripRight(StripLeft(s))
  }

  /** s.split(sep): always at least one piece. */
  function Split(s: string, sep: char): (r: seq<string>)
    ensures |r| >= 1
  {
    if s == "" then [""]
    else
      var rest := Split(s[1..], sep);
      if s[0] == sep then [""] + rest else [[s[0]] + rest[0]] + rest[1..]
  }

  function Join(sep: char, xs: seq<string>): string {
    if xs == [] then ""
    else if |xs| == 1 then xs[0]
    else xs[0] + [sep] + Join(sep, xs[1..])
  }

  lemma {:induction false} SplitConcat(a: string, b: string, sep: char)
    ensures Split(a + [sep] + b, sep) == Split(a, sep) + Split(b, sep)
  {
    var s := a + [sep] + b;
    if a == "" {
      assert s[1..] == b;
    } else {
      assert s[1..] == a[1..] + [sep] + b;
      SplitConcat(a[1..], b, sep);
    }
  }

  /** A string without the separator is its own only piece. */
  lemma {:induction false} SplitWhole(a: string, sep: char)
    requires sep !in a
    ensures Split(a, sep) == [a]
  {
    if a != "" {
      SplitWhole(a[1..], sep);
      assert [a[0]] + a[1..] == a;
    }
  }

  // ---- blanks ----

  /** The blanks by code point: the controls from tab to carriage return and 28 to 31, space, and Unicode's others. */
  lemma BlankCodes(c: char)
    ensures IsSpace(c) <==>
      c as int in {9, 10, 11, 12, 13, 28, 29, 30, 31, 32, 0x85, 0xA0, 0x1680, 0x2000, 0x2001, 0x2002, 0x2003, 0x2004, 0x2005,
                   0x2006, 0x2007, 0x2008, 0x2009, 0x200A, 0x2028, 0x2029, 0x202F, 0x205F, 0x3000}
  {
  }

  /** strip() takes nothing but blanks off the ends, and leaves none there. */
  lemma StripMeans(s: string)
    ensures exists left, right :: Blank(left) && Blank(right) && s == left + Strip(s) + right
    ensures var r := Strip(s); r != "" ==> !IsSpace(r[0]) && !IsSpace(r[|r| - 1])
  {
    var left := StripLeftSplits(s);
    var right := StripRightSplits(StripLeft(s));
    assert s == left + Strip(s) + right;
    StripLeftKeeps(s);
    StripRightPrefix(StripLeft(s));
    var r := Strip(s);
    if r != "" {
      assert r[0] == StripLeft(s)[0];
    }
  }

  lemma {:induction false} StripLeftSplits(s: string) returns (left: string)
    ensures Blank(left) && s == left + StripLeft(s)
  {
    if s != "" && IsSpace(s[0]) {
      left := StripLeftSplits(s[1..]);
      left := [s[0]] + left;
    } else {
      left := "";
    }
  }

  lemma {:induction false} StripRightSplits(s: string) returns (right: string)
    ensures Blank(right) && s == StripRight(s) + right
    ensures StripRight(s) != "" ==> !IsSpace(StripRight(s)[|StripRight(s)| - 1])
  {
    if s != "" && IsSpace(s[|s| - 1]) {
      right := StripRightSplits(s[..|s| - 1]);
      right := right + [s[|s| - 1]];
    } else {
      right := "";
    }
  }

  predicate Blank(s: string) {
    forall c <- s :: IsSpace(c)
  }

  lemma {:induction false} StripLeftPadded(left: string, s: string)
    requires Blank(left)
    ensures StripLeft(left + s) == StripLeft(s)
  {
    if left == "" {
      assert left + s == s;
    } else {
      assert left[0] in left && forall c <- left[1..] :: c in left;
      assert (left + s)[1..] == left[1..] + s;
      StripLeftPadded(left[1..], s);
    }
  }

  lemma {:induction false} StripRightPadded(s: string, right: string)
    requires Blank(right)
    ensures StripRight(s + right) == StripRight(s)
  {
    if right == "" {
      assert s + right == s;
    } else {
      var init := right[..|right| - 1];
      assert right[|right| - 1] in right && forall c <- init :: c in right;
      assert (s + right)[..|s + right| - 1] == s + init;
      StripRightPadded(s, init);
    }
  }

  lemma {:induction false} StripLeftAppend(s: string, right: string)
    ensures StripLeft(s) != "" ==> StripLeft(s + right) == StripLeft(s) + right
    ensures StripLeft(s) == "" ==> Blank(s)
  {
    if s != "" && IsSpace(s[0]) {
      assert (s + right)[1..] == s[1..] + right;
      StripLeftAppend(s[1..], right);
      assert forall c <- s :: c == s[0] || c in s[1..];
    }
  }

  /** Blanks around a string do not survive strip(). */
  lemma StripPadded(left: string, s: string, right: string)
    requires Blank(left) && Blank(right)
    ensures Strip(left + s + right) == Strip(s)
  {
    assert left + s + right == left + (s + right);
    StripLeftPadded(left, s + right);
    StripLeftAppend(s, right);
    if StripLeft(s) == "" {
      StripLeftPadded(s, right);
      StripLeftKeeps(right);
      StripRightPadded("", StripLeft(right));
      assert "" + StripLeft(right) == StripLeft(right);
    } else {
      StripRightPadded(StripLeft(s), right);
    }
  }

  lemma {:induction false} StripLeftKeeps(s: string)
    ensures forall c <- StripLeft(s) :: c in s
    ensures StripLeft(s) != "" ==> !IsSpace(StripLeft(s)[0])
  {
    if s != "" && IsSpace(s[0]) { StripLeftKeeps(s[1..]); }
  }

  lemma {:induction false} StripRightPrefix(s: string)
    ensures StripRight(s) <= s && StripRight(StripRight(s)) == StripRight(s)
  {
    if s != "" && IsSpace(s[|s| - 1]) { StripRightPrefix(s[..|s| - 1]); }
  }

  lemma StripTwice(s: string)
    ensures Strip(Strip(s)) == Strip(s)
  {
    StripLeftKeeps(s);
    StripRightPrefix(StripLeft(s));
    var r := Strip(s);
    assert r != "" ==> r[0] == StripLeft(s)[0];
  }

  lemma {:induction false} SplitPadRight(s: string, sep: char, c: char)
    requires c != sep
    ensures var pieces := Split(s, sep); var last := |pieces| - 1;
      Split(s + [c], sep) == pieces[..last] + [pieces[last] + [c]]
  {
    if s == "" {
      assert s + [c] == [c] && [c][1..] == "" && [c] + "" == [c] && "" + [c] == [c];
    } else {
      assert (s + [c])[1..] == s[1..] + [c];
      SplitPadRight(s[1..], sep, c);
      var rest := Split(s[1..], sep);
      if s[0] != sep && |rest| == 1 {
        assert [s[0]] + (rest[0] + [c]) == [s[0]] + rest[0] + [c];
      }
    }
  }
}
