/** The parts of Go's `strings` package that the protocol uses. A Go string is
    a sequence of bytes, and every operation here works on bytes, as Go's do. */
module Strings {
  import opened Base

  const COLON: byte := 0x3A
  const NEWLINE: byte := 0x0A

  // ---------------------------------------------------------------- literals

  /** The bytes of a literal written in ASCII: each character below 128 is its
      own byte. */
  function Ascii(s: string): (r: seq<byte>)
    ensures |r| == |s|
  {
    seq(|s|, i requires 0 <= i < |s| => (s[i] as int % 256) as byte)
  }

  /** A printable ASCII literal has no newline byte. */
  lemma AsciiPrintable(s: string)
    requires forall i | 0 <= i < |s| :: ' ' <= s[i] <= '~'
    ensures NEWLINE !in Ascii(s)
    ensures s != [] && s[|s| - 1] != ' ' ==> !IsSpace(Ascii(s)[|s| - 1])
    ensures s != [] ==> Ascii(s)[|s| - 1] < 0x80
  {
    if s != [] {
      assert 32 <= s[|s| - 1] as int % 256 <= 126;
    }
    forall i | 0 <= i < |s|
      ensures Ascii(s)[i] != NEWLINE
    {
      assert 32 <= s[i] as int % 256 <= 126;
    }
  }

  // ---------------------------------------------------------------- prefixes

  /** strings.HasPrefix */
  predicate HasPrefix(s: seq<byte>, prefix: seq<byte>) {
    |prefix| <= |s| && s[..|prefix|] == prefix
  }

  /** `s` has the prefix exactly when it is the prefix followed by the rest
      of `s`. */
  lemma HasPrefixSplits(s: seq<byte>, prefix: seq<byte>, rest: seq<byte>)
    ensures HasPrefix(prefix + rest, prefix)
    ensures HasPrefix(s, prefix) <==> |prefix| <= |s| && s == prefix + s[|prefix|..]
  {
    assert (prefix + rest)[..|prefix|] == prefix;
    if |prefix| <= |s| && s == prefix + s[|prefix|..] {
      assert s[..|prefix|] == (prefix + s[|prefix|..])[..|prefix|];
    }
  }

  /** strings.TrimPrefix: `s` without `prefix`, or `s` itself when it does not start with it. */
  function TrimPrefix(s: seq<byte>, prefix: seq<byte>): (r: seq<byte>)
    ensures HasPrefix(s, prefix) ==> prefix + r == s
    ensures !HasPrefix(s, prefix) ==> r == s
  {
    if HasPrefix(s, prefix) then s[|prefix|..] else s
  }

  /** Trimming a prefix that is there leaves what follows it. */
  lemma TrimPrefixOfPrefixed(prefix: seq<byte>, s: seq<byte>)
    ensures TrimPrefix(prefix + s, prefix) == s
  {
    assert (prefix + s)[..|prefix|] == prefix;
  }

  // ------------------------------------------------------------- white space

  /** The ASCII white space that strings.TrimSpace removes: '\t', '\n', '\v', '\f', '\r' and ' '. */
  predicate IsSpace(b: byte) {
    (0x09 <= b <= 0x0D) || b == 0x20
  }

  predicate AllSpace(s: seq<byte>) {
    forall i | 0 <= i < |s| :: IsSpace(s[i])
  }

  /** `s` with its leading white space removed. */
  function TrimLeft(s: seq<byte>): (r: seq<byte>)
    ensures |r| <= |s| && r == s[|s| - |r|..]
    ensures AllSpace(s[..|s| - |r|])
    ensures r == [] || !IsSpace(r[0])
  {
    if s != [] && IsSpace(s[0]) then TrimLeft(s[1..]) else s
  }

  /** `s` with its trailing white space removed. */
  function TrimRight(s: seq<byte>): (r: seq<byte>)
    ensures |r| <= |s| && r == s[..|r|]
    ensures AllSpace(s[|r|..])
    ensures r == [] || !IsSpace(r[|r| - 1])
  {
    if s != [] && IsSpace(s[|s| - 1]) then TrimRight(s[..|s| - 1]) else s
  }

  /** strings.TrimSpace: the infix of `s` left once white space is cut from both ends. */
  function TrimSpace(s: seq<byte>): (r: seq<byte>)
    ensures r == [] || (!IsSpace(r[0]) && !IsSpace(r[|r| - 1]))
    ensures exists i :: 0 <= i <= |s| - |r| && s[i..i + |r|] == r && AllSpace(s[..i]) && AllSpace(s[i + |r|..])
  {
    var left := TrimLeft(s);
    var r := TrimRight(left);
    TrimBothEnds(s, left, r);
    r
  }

  /** What is cut from the left and then from the right of `s` lies at both
      ends of it, around what is left. */
  lemma TrimBothEnds(s: seq<byte>, left: seq<byte>, r: seq<byte>)
    requires |left| <= |s| && left == s[|s| - |left|..] && AllSpace(s[..|s| - |left|])
    requires |r| <= |left| && r == left[..|r|] && AllSpace(left[|r|..])
    ensures exists i :: 0 <= i <= |s| - |r| && s[i..i + |r|] == r && AllSpace(s[..i]) && AllSpace(s[i + |r|..])
  {
    var i := |s| - |left|;
    assert s[i..i + |r|] == r;
    assert s[i + |r|..] == left[|r|..];
  }

  /** `s` ends in the UTF-8 bytes of a character that Go's unicode.IsSpace
      accepts beyond ASCII: U+0085, U+00A0, U+1680, U+2000 to U+200A, U+2028,
      U+2029, U+202F, U+205F or U+3000. strings.TrimSpace cuts such a
      character from the end; TrimSpace here does not. */
  predicate EndsInUnicodeSpace(s: seq<byte>) {
    var n := |s|;
    || (n >= 2 && s[n - 2] == 0xC2 && (s[n - 1] == 0x85 || s[n - 1] == 0xA0))
    || (n >= 3 && s[n - 3] == 0xE1 && s[n - 2] == 0x9A && s[n - 1] == 0x80)
    || (n >= 3 && s[n - 3] == 0xE2 && s[n - 2] == 0x80
          && (0x80 <= s[n - 1] <= 0x8A || s[n - 1] == 0xA8 || s[n - 1] == 0xA9 || s[n - 1] == 0xAF))
    || (n >= 3 && s[n - 3] == 0xE2 && s[n - 2] == 0x81 && s[n - 1] == 0x9F)
    || (n >= 3 && s[n - 3] == 0xE3 && s[n - 2] == 0x80 && s[n - 1] == 0x80)
  }

  /** Every byte of `s` is below 0x80. */
  predicate AllAscii(s: seq<byte>) {
    forall i | 0 <= i < |s| :: s[i] < 0x80
  }

  /** A text ending in an ASCII byte does not end in a Unicode space. */
  lemma AsciiEndNoUnicodeSpace(s: seq<byte>)
    requires s != [] && s[|s| - 1] < 0x80
    ensures !EndsInUnicodeSpace(s)
  {
  }

  /** ASCII bytes in front of `t` do not change whether it ends in a Unicode
      space: every such character has its last two bytes above 0x7F. */
  lemma EndsInUnicodeSpaceAfter(a: seq<byte>, t: seq<byte>)
    requires AllAscii(a)
    ensures EndsInUnicodeSpace(a + t) == EndsInUnicodeSpace(t)
  {
    var s := a + t;
    var n := |s|;
    if |t| >= 3 {
      assert s[n - 3] == t[|t| - 3] && s[n - 2] == t[|t| - 2] && s[n - 1] == t[|t| - 1];
    } else if |t| == 2 {
      assert s[n - 2] == t[0] && s[n - 1] == t[1];
      if n >= 3 { assert s[n - 3] == a[|a| - 1]; }
    } else if |t| == 1 {
      assert s[n - 1] == t[0];
      if n >= 2 { assert s[n - 2] == a[|a| - 1]; }
    } else {
      assert s == a;
      if n >= 1 { assert s[n - 1] == a[n - 1]; }
    }
  }

  /** A line that starts with an ASCII byte other than white space and ends
      in neither ASCII white space nor a Unicode space is unchanged by
      TrimSpace, once its terminating newline is cut; strings.TrimSpace
      gives the same. */
  lemma TrimSpaceOfLine(s: seq<byte>)
    requires s != [] && !IsSpace(s[0]) && s[0] < 0x80
    requires !IsSpace(s[|s| - 1]) && !EndsInUnicodeSpace(s)
    ensures TrimSpace(s + [NEWLINE]) == s
  {
    var line := s + [NEWLINE];
    assert TrimLeft(line) == line;
    assert line[..|line| - 1] == s;
    assert TrimRight(s) == s;
  }

  // -------------------------------------------------------- counting, search

  /** strings.Count for a one-byte separator. */
  function Count(s: seq<byte>, b: byte): (n: nat)
    ensures n == 0 <==> b !in s
  {
    if s == [] then 0 else (if s[0] == b then 1 else 0) + Count(s[1..], b)
  }

  lemma {:induction false} CountAppend(s: seq<byte>, t: seq<byte>, b: byte)
    ensures Count(s + t, b) == Count(s, b) + Count(t, b)
  {
    if s != [] {
      assert (s + t)[1..] == s[1..] + t;
      CountAppend(s[1..], t, b);
    } else {
      assert s + t == t;
    }
  }

  /** Joins `parts` with `sep` between neighbours: the inverse of Split. */
  function Join(parts: seq<seq<byte>>, sep: byte): seq<byte>
    requires parts != []
  {
    if |parts| == 1 then parts[0] else parts[0] + [sep] + Join(parts[1..], sep)
  }

  /** strings.Split for a one-byte separator, cut as Go's genSplit cuts: the
      text before the first separator, then the split of the rest. */
  function Split(s: seq<byte>, sep: byte): (parts: seq<seq<byte>>)
    ensures |parts| == Count(s, sep) + 1
    ensures forall i | 0 <= i < |parts| :: sep !in parts[i]
    ensures Join(parts, sep) == s
    decreases |s|
  {
    var i := IndexByte(s, sep);
    if i < 0 then [s]
    else
      var rest := Split(s[i + 1..], sep);
      SplitCut(s, sep, i, rest);
      [s[..i]] + rest
  }

  /** One cut of Split: the piece before the first separator, put in front of
      the split of what follows it, is a split of the whole. */
  lemma SplitCut(s: seq<byte>, sep: byte, i: nat, rest: seq<seq<byte>>)
    requires i < |s| && s[i] == sep && sep !in s[..i]
    requires |rest| == Count(s[i + 1..], sep) + 1
    requires forall j | 0 <= j < |rest| :: sep !in rest[j]
    requires Join(rest, sep) == s[i + 1..]
    ensures |[s[..i]] + rest| == Count(s, sep) + 1
    ensures forall j | 0 <= j < |[s[..i]] + rest| :: sep !in ([s[..i]] + rest)[j]
    ensures Join([s[..i]] + rest, sep) == s
  {
    var head, tail := s[..i], s[i + 1..];
    assert s == head + [sep] + tail;
    CountAppend(head + [sep], tail, sep);
    CountAppend(head, [sep], sep);
    var parts := [head] + rest;
    assert parts[1..] == rest;
    assert forall j | 1 <= j < |parts| :: parts[j] == rest[j - 1];
  }

  /** Splitting `a + [sep] + b` at its only separator gives back `a` and `b`. */
  lemma SplitAtOnlySeparator(a: seq<byte>, b: seq<byte>, sep: byte)
    requires sep !in a && sep !in b
    ensures Split(a + [sep] + b, sep) == [a, b]
  {
    var s := a + [sep] + b;
    IndexOfJoin(a, b, sep);
    assert s[..|a|] == a && s[|a| + 1..] == b;
    SplitSeparatorFree(b, sep);
  }

  /** A separator-free string splits into itself. */
  lemma SplitSeparatorFree(s: seq<byte>, sep: byte)
    requires sep !in s
    ensures Split(s, sep) == [s]
  {
  }

  /** strings.LastIndex for a one-byte separator: -1 when absent. */
  function LastIndex(s: seq<byte>, sep: byte): (r: int)
    ensures -1 <= r < |s|
    ensures r == -1 <==> sep !in s
    ensures r >= 0 ==> s[r] == sep && sep !in s[r + 1..]
  {
    if s == [] then -1
    else if s[|s| - 1] == sep then |s| - 1
    else
      var r := LastIndex(s[..|s| - 1], sep);
      assert s == s[..|s| - 1] + [s[|s| - 1]];
      r
  }

  /** The pieces of `a + [sep] + b`, cut around the separator between them. */
  lemma CutAtSeparator(a: seq<byte>, b: seq<byte>, sep: byte)
    ensures |a + [sep] + b| == |a| + |b| + 1
    ensures (a + [sep] + b)[..|a|] == a && (a + [sep] + b)[|a|] == sep
    ensures (a + [sep] + b)[|a| + 1..] == b
  {
  }

  /** A sequence is what comes before position `i`, the byte there, and what
      comes after. */
  lemma JoinAround(s: seq<byte>, i: nat)
    requires i < |s|
    ensures s == s[..i] + [s[i]] + s[i + 1..]
  {
  }

  /** When `b` has no separator, the last separator of `a + [sep] + b` is the
      one between them. */
  lemma LastIndexOfJoin(a: seq<byte>, b: seq<byte>, sep: byte)
    requires sep !in b
    ensures LastIndex(a + [sep] + b, sep) == |a|
  {
    var s := a + [sep] + b;
    assert s[|a|] == sep;
  }

  /** When `a` has no separator, the first separator of `a + [sep] + b` is the
      one between them. */
  lemma IndexOfJoin(a: seq<byte>, b: seq<byte>, sep: byte)
    requires sep !in a
    ensures IndexByte(a + [sep] + b, sep) == |a|
  {
    var s := a + [sep] + b;
    assert s[|a|] == sep && s[..|a|] == a;
  }

  /** strings.IndexByte: the first position of `b` in `s`, or -1. */
  function IndexByte(s: seq<byte>, b: byte): (r: int)
    ensures -1 <= r < |s|
    ensures r == -1 <==> b !in s
    ensures r >= 0 ==> s[r] == b && b !in s[..r]
  {
    if s == [] then -1
    else if s[0] == b then 0
    else
      var r := IndexByte(s[1..], b);
      assert s == [s[0]] + s[1..];
      if r < 0 then -1 else r + 1
  }
}
