/** String operations of the source's standard library, over sequences of Unicode characters. */
module Text {

  /** `char::is_whitespace`: the Unicode White_Space property. */
  predicate IsWhitespace(c: char) {
    || '\t' <= c <= '\r'
    || c == ' '
    || c == '\U{0085}'
    || c == '\U{00A0}'
    || c == '\U{1680}'
    || '\U{2000}' <= c <= '\U{200A}'
    || c == '\U{2028}'
    || c == '\U{2029}'
    || c == '\U{202F}'
    || c == '\U{205F}'
    || c == '\U{3000}'
  }

  /** The 25 characters with the Unicode property White_Space. */
  const WHITE_SPACE: string := "\U{0009}\U{000A}\U{000B}\U{000C}\U{000D}\U{0020}\U{0085}\U{00A0}\U{1680}\U{2000}\U{2001}\U{2002}\U{2003}\U{2004}\U{2005}\U{2006}\U{2007}\U{2008}\U{2009}\U{200A}\U{2028}\U{2029}\U{202F}\U{205F}\U{3000}"

  lemma WhitespaceExactly(c: char)
    ensures IsWhitespace(c) <==> c in WHITE_SPACE
  {
    assert |WHITE_SPACE| == 25;
    if '\t' <= c <= '\r' {
      var n := c as int - 9;
      assert n == 0 || n == 1 || n == 2 || n == 3 || n == 4;
      assert WHITE_SPACE[n] == c;
    } else if '\U{2000}' <= c <= '\U{200A}' {
      var n := c as int - 0x2000;
      assert n == 0 || n == 1 || n == 2 || n == 3 || n == 4 || n == 5 || n == 6 || n == 7 || n == 8 || n == 9 || n == 10;
      assert WHITE_SPACE[9 + n] == c;
    } else if IsWhitespace(c) {
      assert c == WHITE_SPACE[5] || c == WHITE_SPACE[6] || c == WHITE_SPACE[7] || c == WHITE_SPACE[8]
          || c == WHITE_SPACE[20] || c == WHITE_SPACE[21] || c == WHITE_SPACE[22] || c == WHITE_SPACE[23]
          || c == WHITE_SPACE[24];
    }
  }

  predicate AllWhitespace(s: string) {
    forall i :: 0 <= i < |s| ==> IsWhitespace(s[i])
  }

  /** No whitespace at either end. */
  predicate Trimmed(s: string) {
    s != [] ==> !IsWhitespace(s[0]) && !IsWhitespace(s[|s| - 1])
  }

  function TrimStart(s: string): (r: string)
    ensures |r| <= |s|
    ensures r != [] ==> !IsWhitespace(r[0])
  {
    if s != [] && IsWhitespace(s[0]) then TrimStart(s[1..]) else s
  }

  function TrimEnd(s: string): (r: string)
    ensures |r| <= |s|
    ensures r != [] ==> r[0] == s[0] && !IsWhitespace(r[|r| - 1])
  {
    if s != [] && IsWhitespace(s[|s| - 1]) then TrimEnd(s[..|s| - 1]) else s
  }

  /** `str::trim`. */
  function Trim(s: string): (r: string)
    ensures Trimmed(r)
    ensures |r| <= |s|
  {
    TrimEnd(TrimStart(s))
  }

  lemma {:induction false} TrimStartSplits(s: string) returns (left: string)
    ensures s == left + TrimStart(s)
    ensures AllWhitespace(left)
  {
    if s != [] && IsWhitespace(s[0]) {
      left := TrimStartSplits(s[1..]);
      left := [s[0]] + left;
    } else {
      left := [];
    }
  }

  lemma {:induction false} TrimEndSplits(s: string) returns (right: string)
    ensures s == TrimEnd(s) + right
    ensures AllWhitespace(right)
  {
    if s != [] && IsWhitespace(s[|s| - 1]) {
      right := TrimEndSplits(s[..|s| - 1]);
      right := right + [s[|s| - 1]];
    } else {
      right := [];
    }
  }

  /** What `Trim` removes is a whitespace prefix and a whitespace suffix. */
  lemma TrimSplits(s: string) returns (left: string, right: string)
    ensures s == left + (Trim(s) + right)
    ensures AllWhitespace(left) && AllWhitespace(right)
  {
    left := TrimStartSplits(s);
    right := TrimEndSplits(TrimStart(s));
  }

  lemma {:induction false} TrimStartSkips(left: string, s: string)
    requires AllWhitespace(left)
    ensures TrimStart(left + s) == TrimStart(s)
  {
    if left == [] {
      assert left + s == s;
    } else {
      assert (left + s)[0] == left[0];
      assert (left + s)[1..] == left[1..] + s;
      TrimStartSkips(left[1..], s);
    }
  }

  lemma {:induction false} TrimEndSkips(s: string, right: string)
    requires AllWhitespace(right)
    ensures TrimEnd(s + right) == TrimEnd(s)
  {
    if right == [] {
      assert s + right == s;
    } else {
      var t := s + right;
      assert t[|t| - 1] == right[|right| - 1];
      assert t[..|t| - 1] == s + right[..|right| - 1];
      TrimEndSkips(s, right[..|right| - 1]);
    }
  }

  /** Whitespace around a trimmed core is all that `Trim` removes. */
  lemma TrimOfCore(left: string, core: string, right: string)
    requires AllWhitespace(left) && AllWhitespace(right) && Trimmed(core)
    ensures Trim(left + core + right) == core
  {
    assert left + core + right == left + (core + right);
    TrimStartSkips(left, core + right);
    if core == [] {
      assert core + right == right + [];
      TrimStartSkips(right, []);
    } else {
      assert TrimStart(core + right) == core + right;
      TrimEndSkips(core, right);
    }
  }

  lemma AllWhitespaceConcat(a: string, b: string)
    requires AllWhitespace(a) && AllWhitespace(b)
    ensures AllWhitespace(a + b)
  {
  }

  /** Outer whitespace is invisible to `Trim`. */
  lemma TrimIgnoresOuterWhitespace(left: string, s: string, right: string)
    requires AllWhitespace(left) && AllWhitespace(right)
    ensures Trim(left + s + right) == Trim(s)
  {
    var l, r := TrimSplits(s);
    AllWhitespaceConcat(left, l);
    AllWhitespaceConcat(r, right);
    TrimOfCore(left + l, Trim(s), r + right);
    Regroup(left, l, Trim(s), r, right);
  }

  lemma Regroup(a: string, b: string, c: string, d: string, e: string)
    ensures a + (b + (c + d)) + e == (a + b) + c + (d + e)
  {
  }

  lemma TrimOfTrimmed(s: string)
    requires Trimmed(s)
    ensures Trim(s) == s
  {
    TrimOfCore([], s, []);
    assert [] + s + [] == s;
  }

  lemma TrimIsEmptyIff(s: string)
    ensures Trim(s) == [] <==> AllWhitespace(s)
  {
    if AllWhitespace(s) {
      TrimOfCore(s, [], []);
      assert s + [] + [] == s;
    }
    var left, right := TrimSplits(s);
    if Trim(s) == [] {
      assert s == left + right;
    }
  }

  // --- ASCII case ---------------------------------------------------------------

  function LowerChar(c: char): char {
    if 'A' <= c <= 'Z' then (c as int + 32) as char else c
  }

  function UpperChar(c: char): char {
    if 'a' <= c <= 'z' then (c as int - 32) as char else c
  }

  /** `str::eq_ignore_ascii_case`. */
  predicate EqIgnoreCase(a: string, b: string) {
    |a| == |b| && forall i :: 0 <= i < |a| ==> LowerChar(a[i]) == LowerChar(b[i])
  }

  /** `str::to_ascii_uppercase`. */
  function Upper(s: string): (r: string)
    ensures |r| == |s|
    ensures forall i :: 0 <= i < |s| ==> r[i] == UpperChar(s[i])
  {
    if s == [] then [] else [UpperChar(s[0])] + Upper(s[1..])
  }

  // --- searching and splitting --------------------------------------------------

  /** What comes before the first `c`; all of `s` when `c` does not occur. */
  function Before(s: string, c: char): (r: string)
    ensures |r| <= |s|
  {
    if s == [] || s[0] == c then [] else [s[0]] + Before(s[1..], c)
  }

  /** The rest of `s` from its first `c` on; empty when `c` does not occur. */
  function From(s: string, c: char): (r: string)
    ensures |r| <= |s|
    ensures r != [] ==> r[0] == c
  {
    if s == [] || s[0] == c then s else From(s[1..], c)
  }

  lemma {:induction false} BeforeFrom(s: string, c: char)
    ensures s == Before(s, c) + From(s, c)
    ensures c !in Before(s, c)
    ensures From(s, c) == [] <==> c !in s
  {
    if s != [] && s[0] != c {
      BeforeFrom(s[1..], c);
      Uncut(s, Before(s[1..], c), From(s[1..], c));
    }
  }

  lemma Uncut(s: string, a: string, b: string)
    requires s != [] && s[1..] == a + b
    ensures s == ([s[0]] + a) + b
    ensures forall c :: c in s <==> c == s[0] || c in s[1..]
  {
    assert s == [s[0]] + s[1..];
  }

  /** The cut of a text that is put together around its first `c`. */
  lemma {:induction false} CutAt(head: string, c: char, rest: string)
    requires c !in head
    requires rest != [] ==> rest[0] == c
    ensures Before(head + rest, c) == head
    ensures From(head + rest, c) == rest
  {
    if head == [] {
      assert head + rest == rest;
    } else {
      assert head[0] in head;
      assert (head + rest)[1..] == head[1..] + rest;
      CutAt(head[1..], c, rest);
    }
  }

  lemma CutNone(s: string, c: char)
    requires c !in s
    ensures Before(s, c) == s && From(s, c) == []
  {
    CutAt(s, c, []);
    assert s + [] == s;
  }

  /** `str::split` on one character. */
  function Split(s: string, sep: char): (parts: seq<string>)
    ensures |parts| >= 1
    decreases |s|
  {
    var rest := From(s, sep);
    if rest == [] then [s] else [Before(s, sep)] + Split(rest[1..], sep)
  }

  lemma SplitLast(s: string, sep: char)
    requires sep !in s
    ensures Split(s, sep) == [s]
  {
    CutNone(s, sep);
  }

  lemma SplitStep(head: string, sep: char, rest: string)
    requires sep !in head
    ensures Split(head + ([sep] + rest), sep) == [head] + Split(rest, sep)
  {
    CutAt(head, sep, [sep] + rest);
    assert ([sep] + rest)[1..] == rest;
  }

  function Join(parts: seq<string>, sep: string): string {
    if parts == [] then []
    else if |parts| == 1 then parts[0]
    else parts[0] + (sep + Join(parts[1..], sep))
  }

  lemma {:induction false} SplitJoin(parts: seq<string>, sep: char)
    requires parts != []
    requires forall p :: p in parts ==> sep !in p
    ensures Split(Join(parts, [sep]), sep) == parts
  {
    if |parts| == 1 {
      SplitLast(parts[0], sep);
    } else {
      SplitJoin(parts[1..], sep);
      SplitStep(parts[0], sep, Join(parts[1..], [sep]));
    }
  }

  function WordLength(s: string): (n: nat)
    ensures n <= |s|
    ensures forall j :: 0 <= j < n ==> !IsWhitespace(s[j])
    ensures n < |s| ==> IsWhitespace(s[n])
  {
    if s == [] || IsWhitespace(s[0]) then 0 else 1 + WordLength(s[1..])
  }

  /** `str::split_whitespace`. */
  function Words(s: string): seq<string>
    decreases |s|
  {
    var t := TrimStart(s);
    if t == [] then []
    else
      var n := WordLength(t);
      [t[..n]] + Words(t[n..])
  }

  lemma {:induction false} WordLengthIs(s: string, n: nat)
    requires n <= |s|
    requires forall j :: 0 <= j < n ==> !IsWhitespace(s[j])
    requires n < |s| ==> IsWhitespace(s[n])
    ensures WordLength(s) == n
  {
    if n > 0 {
      WordLengthIs(s[1..], n - 1);
    }
  }

  /** A word of `split_whitespace`: nonempty and free of whitespace. */
  predicate IsWord(w: string) {
    w != [] && forall i :: 0 <= i < |w| ==> !IsWhitespace(w[i])
  }

  /** The first word ends at the first whitespace character. */
  lemma WordsStep(w: string, rest: string)
    requires IsWord(w)
    requires rest != [] ==> IsWhitespace(rest[0])
    ensures Words(w + rest) == [w] + Words(rest)
  {
    var s := w + rest;
    assert s[0] == w[0];
    assert TrimStart(s) == s;
    WordLengthIs(s, |w|);
    assert s[..|w|] == w && s[|w|..] == rest;
  }

  /** Splitting words that were joined by single spaces gives the words back. */
  lemma {:induction false} WordsOfJoin(words: seq<string>)
    requires forall k :: 0 <= k < |words| ==> IsWord(words[k])
    ensures Words(Join(words, " ")) == words
  {
    if |words| == 1 {
      WordsStep(words[0], []);
      assert words[0] + [] == words[0];
    } else if |words| > 1 {
      var tail := Join(words[1..], " ");
      WordsOfJoin(words[1..]);
      WordsSkipSpace(tail);
      WordsStep(words[0], " " + tail);
      assert Join(words, " ") == words[0] + (" " + tail);
      assert words == [words[0]] + words[1..];
    }
  }

  lemma WordsSkipSpace(s: string)
    ensures Words(" " + s) == Words(s)
  {
    assert (" " + s)[1..] == s;
    assert TrimStart(" " + s) == TrimStart(s);
  }

  // --- UTF-8 size ---------------------------------------------------------------

  /** `char::len_utf8`. */
  function CharBytes(c: char): (n: nat)
    ensures 1 <= n <= 4
  {
    if c < '\U{0080}' then 1
    else if c < '\U{0800}' then 2
    else if c < '\U{10000}' then 3
    else 4
  }

  /** `str::len`: the size of the text in UTF-8 bytes. */
  function ByteLength(s: string): (n: nat)
    ensures n >= |s|
  {
    if s == [] then 0 else ByteLength(s[..|s| - 1]) + CharBytes(s[|s| - 1])
  }

  lemma {:induction false} ByteLengthAscii(s: string)
    requires forall i :: 0 <= i < |s| ==> s[i] < '\U{0080}'
    ensures ByteLength(s) == |s|
  {
    if s != [] {
      ByteLengthAscii(s[..|s| - 1]);
    }
  }
}
