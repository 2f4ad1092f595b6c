/**
  The few Python string operations the detector relies on: `str.strip()`,
  `str.strip(chars)`, `str.split()` with no separator, and `str.replace` of one
  character by another. Whitespace is Python's own set (the characters for which
  `str.isspace()` holds), so that stripping and splitting agree with CPython.
 */
module PyText {

  /** The characters CPython's `str.strip()` and `str.split()` treat as whitespace. */
  predicate IsSpace(c: char)
  {
    || ('\t' <= c <= '\r')
    || ('\U{1C}' <= c <= '\U{1F}')
    || c == ' ' || c == '\U{85}' || c == '\U{A0}' || c == '\U{1680}'
    || ('\U{2000}' <= c <= '\U{200A}')
    || c == '\U{2028}' || c == '\U{2029}' || c == '\U{202F}' || c == '\U{205F}' || c == '\U{3000}'
  }

  /** No character of `s` satisfies `sep`. */
  predicate NoneOf(s: string, sep: char -> bool)
  {
    forall i | 0 <= i < |s| :: !sep(s[i])
  }

  predicate NoSpace(s: string)
  {
    NoneOf(s, IsSpace)
  }

  /** The leading run of characters satisfying `drop` is removed. */
  function StripLeft(s: string, drop: char -> bool): (r: string)
    ensures |r| <= |s|
    ensures r != [] ==> !drop(r[0])
    ensures (s == [] || !drop(s[0])) ==> r == s
    decreases |s|
  {
    if s != [] && drop(s[0]) then StripLeft(s[1..], drop) else s
  }

  /** The trailing run of characters satisfying `drop` is removed. */
  function StripRight(s: string, drop: char -> bool): (r: string)
    ensures |r| <= |s|
    ensures forall i | 0 <= i < |r| :: r[i] == s[i]
    ensures r != [] ==> !drop(r[|r| - 1])
    ensures (s == [] || !drop(s[|s| - 1])) ==> r == s
    decreases |s|
  {
    if s != [] && drop(s[|s| - 1]) then StripRight(s[..|s| - 1], drop) else s
  }

  /**
    Python's `s.strip(chars)`: both end runs of dropped characters go, the
    middle is kept as it is; a string whose two ends are kept is unchanged.
   */
  function Strip(s: string, drop: char -> bool): (r: string)
    ensures |r| <= |s|
    ensures r != [] ==> !drop(r[0]) && !drop(r[|r| - 1])
    ensures (s == [] || (!drop(s[0]) && !drop(s[|s| - 1]))) ==> r == s
  {
    StripRight(StripLeft(s, drop), drop)
  }

  /** What `StripLeft` removes is a leading run of dropped characters. */
  lemma {:induction false} StripLeftSplits(s: string, drop: char -> bool)
    ensures var k := |s| - |StripLeft(s, drop)|;
            && StripLeft(s, drop) == s[k..]
            && forall i | 0 <= i < k :: drop(s[i])
    decreases |s|
  {
    if s != [] && drop(s[0]) {
      StripLeftSplits(s[1..], drop);
      var k := |s| - |StripLeft(s, drop)|;
      assert s[1..][k - 1..] == s[k..];
      forall i | 0 <= i < k ensures drop(s[i]) {
        if i > 0 {
          assert s[i] == s[1..][i - 1];
        }
      }
    }
  }

  /** What `StripRight` removes is a trailing run of dropped characters. */
  lemma {:induction false} StripRightSplits(s: string, drop: char -> bool)
    ensures var r := StripRight(s, drop);
            && r == s[..|r|]
            && forall i | |r| <= i < |s| :: drop(s[i])
    decreases |s|
  {
    if s != [] && drop(s[|s| - 1]) {
      var t := s[..|s| - 1];
      StripRightSplits(t, drop);
      var r := StripRight(s, drop);
      assert t[..|r|] == s[..|r|];
      forall i | |r| <= i < |s| ensures drop(s[i]) {
        if i < |s| - 1 {
          assert s[i] == t[i];
        }
      }
    }
  }

  /**
    `Strip` removes a leading and a trailing run of dropped characters and
    keeps the middle as it is: together with its contract (the ends of the
    result are kept characters) this determines the result.
   */
  lemma StripSplits(s: string, drop: char -> bool)
    ensures var r := Strip(s, drop);
            var a := |s| - |StripLeft(s, drop)|;
            && a + |r| <= |s|
            && s == s[..a] + r + s[a + |r|..]
            && (forall i | 0 <= i < a :: drop(s[i]))
            && (forall i | a + |r| <= i < |s| :: drop(s[i]))
  {
    var t := StripLeft(s, drop);
    var a := |s| - |t|;
    var r := Strip(s, drop);
    StripLeftSplits(s, drop);
    StripRightSplits(t, drop);
    assert t == s[a..];
    assert r == s[a..a + |r|];
    forall i | a + |r| <= i < |s| ensures drop(s[i]) {
      assert s[i] == t[i - a];
    }
    assert s == s[..a] + s[a..a + |r|] + s[a + |r|..];
  }

  /** The longest prefix of `s` holding no separator. */
  function LeadingWord(s: string, sep: char -> bool): (w: string)
    ensures |w| <= |s|
    ensures NoneOf(w, sep)
    ensures s != [] && !sep(s[0]) ==> w != []
  {
    if s == [] || sep(s[0]) then [] else [s[0]] + LeadingWord(s[1..], sep)
  }

  /** The leading word is a prefix, and the character after it is a separator. */
  lemma {:induction false} LeadingWordSplits(s: string, sep: char -> bool)
    ensures var w := LeadingWord(s, sep);
            && s == w + s[|w|..]
            && (|w| < |s| ==> sep(s[|w|]))
    decreases |s|
  {
    if s != [] && !sep(s[0]) {
      LeadingWordSplits(s[1..], sep);
      var w := LeadingWord(s, sep);
      assert w == [s[0]] + LeadingWord(s[1..], sep);
      assert s[|w|..] == s[1..][|w| - 1..];
    }
  }

  /** The maximal runs of non-separators of `s`, left to right. */
  function SplitOn(s: string, sep: char -> bool): (r: seq<string>)
    ensures forall i | 0 <= i < |r| :: r[i] != [] && NoneOf(r[i], sep)
    decreases |s|
  {
    var t := StripLeft(s, sep);
    if t == [] then []
    else
      var w := LeadingWord(t, sep);
      [w] + SplitOn(t[|w|..], sep)
  }

  /** Python's `s.split()` with no argument: runs of whitespace separate tokens. */
  function Split(s: string): (r: seq<string>)
    ensures forall i | 0 <= i < |r| :: r[i] != [] && NoSpace(r[i])
  {
    SplitOn(s, IsSpace)
  }

  /** Python's `s.replace(from, to)` for one-character `from` and `to`. */
  function ReplaceChar(s: string, from: char, to: char): (r: string)
    ensures |r| == |s|
    ensures forall i | 0 <= i < |s| :: r[i] == if s[i] == from then to else s[i]
  {
    seq(|s|, i requires 0 <= i < |s| => if s[i] == from then to else s[i])
  }

  /** The characters of `s` that are not separators, in order. */
  function Kept(s: string, sep: char -> bool): string
  {
    if s == [] then [] else (if sep(s[0]) then [] else [s[0]]) + Kept(s[1..], sep)
  }

  function Concat(ts: seq<string>): string
  {
    if ts == [] then [] else ts[0] + Concat(ts[1..])
  }

  /** Python's `c.join(ts)` for a one-character `c`. */
  function JoinWith(ts: seq<string>, c: char): string
  {
    if ts == [] then []
    else if |ts| == 1 then ts[0]
    else ts[0] + [c] + JoinWith(ts[1..], c)
  }

  lemma {:induction false} KeptAppend(a: string, b: string, sep: char -> bool)
    ensures Kept(a + b, sep) == Kept(a, sep) + Kept(b, sep)
    decreases |a|
  {
    if a != [] {
      assert (a + b)[1..] == a[1..] + b;
      KeptAppend(a[1..], b, sep);
    } else {
      assert a + b == b;
    }
  }

  lemma {:induction false} KeptOfSeparators(s: string, sep: char -> bool)
    requires forall i | 0 <= i < |s| :: sep(s[i])
    ensures Kept(s, sep) == []
    decreases |s|
  {
    if s != [] {
      KeptOfSeparators(s[1..], sep);
    }
  }

  lemma {:induction false} KeptOfWord(s: string, sep: char -> bool)
    requires NoneOf(s, sep)
    ensures Kept(s, sep) == s
    decreases |s|
  {
    if s != [] {
      KeptOfWord(s[1..], sep);
    }
  }

  /**
    Splitting keeps every non-separator character and its order: gluing the
    tokens back together gives the input with its separators taken out.
   */
  lemma {:induction false} SplitOnKeepsOrder(s: string, sep: char -> bool)
    ensures Concat(SplitOn(s, sep)) == Kept(s, sep)
    decreases |s|
  {
    var t := StripLeft(s, sep);
    var cut := s[..|s| - |t|];
    StripLeftSplits(s, sep);
    assert s == cut + t;
    KeptAppend(cut, t, sep);
    KeptOfSeparators(cut, sep);
    if t != [] {
      var w := LeadingWord(t, sep);
      var rest := t[|w|..];
      LeadingWordSplits(t, sep);
      KeptAppend(w, rest, sep);
      KeptOfWord(w, sep);
      SplitOnKeepsOrder(rest, sep);
      assert SplitOn(s, sep) == [w] + SplitOn(rest, sep);
    }
  }

  /** `split()` keeps every non-whitespace character, in its order. */
  lemma SplitKeepsOrder(s: string)
    ensures Concat(Split(s)) == Kept(s, IsSpace)
  {
    SplitOnKeepsOrder(s, IsSpace);
  }

  lemma {:induction false} LeadingWordOf(w: string, rest: string, sep: char -> bool)
    requires NoneOf(w, sep)
    requires rest == [] || sep(rest[0])
    ensures LeadingWord(w + rest, sep) == w
    decreases |w|
  {
    if w == [] {
      assert w + rest == rest;
    } else {
      assert (w + rest)[1..] == w[1..] + rest;
      LeadingWordOf(w[1..], rest, sep);
    }
  }

  /** A leading separator does not change the tokens. */
  lemma SplitOnSkipsSeparator(c: char, j: string, sep: char -> bool)
    requires sep(c)
    ensures SplitOn([c] + j, sep) == SplitOn(j, sep)
  {
    assert ([c] + j)[1..] == j;
    assert StripLeft([c] + j, sep) == StripLeft(j, sep);
  }

  /** A word followed by a separator (or by nothing) is the first token. */
  lemma SplitOnFirstWord(t: string, rest: string, sep: char -> bool)
    requires t != [] && NoneOf(t, sep)
    requires rest == [] || sep(rest[0])
    ensures SplitOn(t + rest, sep) == [t] + SplitOn(rest, sep)
  {
    var s := t + rest;
    assert s[0] == t[0];
    LeadingWordOf(t, rest, sep);
    assert s[|t|..] == rest;
  }

  /**
    Splitting undoes joining with one separator character, for tokens that are
    non-empty and hold no separator.
   */
  lemma {:induction false} SplitOnJoinWith(ts: seq<string>, c: char, sep: char -> bool)
    requires sep(c)
    requires forall i | 0 <= i < |ts| :: ts[i] != [] && NoneOf(ts[i], sep)
    ensures SplitOn(JoinWith(ts, c), sep) == ts
    decreases |ts|
  {
    if |ts| == 1 {
      SplitOnFirstWord(ts[0], [], sep);
      assert ts[0] + [] == ts[0];
    } else if |ts| > 1 {
      var j := JoinWith(ts[1..], c);
      assert JoinWith(ts, c) == ts[0] + ([c] + j);
      SplitOnFirstWord(ts[0], [c] + j, sep);
      SplitOnSkipsSeparator(c, j, sep);
      SplitOnJoinWith(ts[1..], c, sep);
      assert ts == [ts[0]] + ts[1..];
    }
  }

  /** `split()` undoes `" ".join(...)` on non-empty tokens without whitespace. */
  lemma SplitJoinSpaced(ts: seq<string>)
    requires forall i | 0 <= i < |ts| :: ts[i] != [] && NoSpace(ts[i])
    ensures Split(JoinWith(ts, ' ')) == ts
  {
    SplitOnJoinWith(ts, ' ', IsSpace);
  }
}
