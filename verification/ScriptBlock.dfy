/** JSON inside a script element: hiding every `<` keeps what the text means. */
module ScriptBlock {
  import opened Wrappers
  import opened Json

  /** `replace('<', "\\u003c")` */
  function HideLt(s: string): string {
    if s == [] then []
    else if s[0] == '<' then "\\u003c" + HideLt(s[1..])
    else [s[0]] + HideLt(s[1..])
  }

  /** `json_for_script_block` */
  function JsonForScriptBlock(v: Json): string {
    HideLt(Print(v))
  }

  lemma {:induction false} NoLtLeft(s: string)
    ensures '<' !in HideLt(s)
  {
    if s != [] { NoLtLeft(s[1..]); }
  }

  lemma {:induction false} HideConcat(a: string, b: string)
    ensures HideLt(a + b) == HideLt(a) + HideLt(b)
  {
    if a == [] {
      assert a + b == b;
    } else {
      assert (a + b)[1..] == a[1..] + b;
      HideConcat(a[1..], b);
    }
  }

  lemma {:induction false} HideNothing(s: string)
    requires '<' !in s
    ensures HideLt(s) == s
  {
    if s != [] {
      HideNothing(s[1..]);
      assert s == [s[0]] + s[1..];
    }
  }

  /** The text after `n` characters without `<` is hidden on its own. */
  lemma HideAfter(s: string, n: nat)
    requires n <= |s| && '<' !in s[..n]
    ensures |HideLt(s)| >= n && HideLt(s)[..n] == s[..n] && HideLt(s)[n..] == HideLt(s[n..])
  {
    HideConcat(s[..n], s[n..]);
    HideNothing(s[..n]);
    assert s == s[..n] + s[n..];
  }

  lemma HideHead(s: string)
    requires s != [] && s[0] != '<'
    ensures HideLt(s) != [] && HideLt(s)[0] == s[0] && HideLt(s)[1..] == HideLt(s[1..])
  {
    assert ([s[0]] + HideLt(s[1..]))[1..] == HideLt(s[1..]);
  }

  /** What a parse yields, with the text after it hidden. */
  function HideRest<T>(p: Parsed<T>): Parsed<T> {
    match p
    case Fail => Fail
    case Got(v, rest) => Got(v, HideLt(rest))
  }

  // --- strings ------------------------------------------------------------------

  lemma HexIsNotLt(c: char)
    requires HexValue(c).Some?
    ensures c != '<'
  {
  }

  /** Four hexadecimal digits are untouched, and so is their value. */
  lemma Hex4Hidden(s: string)
    requires Hex4(s).Some?
    ensures |HideLt(s)| >= 4 && HideLt(s)[..4] == s[..4] && HideLt(s)[4..] == HideLt(s[4..])
    ensures Hex4(HideLt(s)) == Hex4(s)
  {
    HexIsNotLt(s[0]);
    HexIsNotLt(s[1]);
    HexIsNotLt(s[2]);
    HexIsNotLt(s[3]);
    HideAfter(s, 4);
    var h := HideLt(s);
    assert forall i :: 0 <= i < 4 ==> h[i] == h[..4][i] && s[i] == s[..4][i];
  }

  lemma UnicodeHidden(s: string)
    requires ParseUnicode(s).Got?
    ensures ParseUnicode(HideLt(s)) == HideRest(ParseUnicode(s))
  {
    hide Hex4, HideLt;
    Hex4Hidden(s);
    var u := Hex4(s).value;
    if !(u < 0xD800 || 0xE000 <= u) {
      var tail := s[4..];
      assert tail[0] == '\\' && tail[1] == 'u' && tail[2..] == s[6..];
      HideAfter(tail, 2);
      var h := HideLt(s);
      assert h[4..] == HideLt(tail);
      assert HideLt(tail)[..2] == tail[..2];
      assert h[4] == h[4..][0] == tail[..2][0] && h[5] == h[4..][1] == tail[..2][1];
      assert h[6..] == HideLt(tail)[2..] == HideLt(s[6..]);
      Hex4Hidden(s[6..]);
      assert s[10..] == s[6..][4..] && h[10..] == h[6..][4..];
    }
  }

  lemma EscapeHidden(s: string)
    requires ParseEscape(s).Got?
    ensures s[0] != '<'
    ensures ParseEscape(HideLt(s)) == HideRest(ParseEscape(s))
  {
    hide ParseUnicode, HideLt;
    HideHead(s);
    if s[0] == 'u' { UnicodeHidden(s[1..]); }
  }

  /** The escape that replaces `<` is read as `<`. */
  lemma HiddenLtReads(rest: string)
    ensures ParseString("\\u003c" + rest) == Cons('<', ParseString(rest))
  {
    var s := "\\u003c" + rest;
    assert s[1..][1..] == "003c" + rest;
    assert Hex4("003c" + rest) == Some(0x3c);
    assert ("003c" + rest)[4..] == rest;
  }

  lemma ConsHidden(c: char, p: Parsed<string>)
    ensures Cons(c, HideRest(p)) == HideRest(Cons(c, p))
  {
  }

  lemma {:induction false} StringHidden(s: string)
    requires ParseString(s).Got?
    ensures ParseString(HideLt(s)) == HideRest(ParseString(s))
    decreases |s|
  {
    hide ParseEscape;
    if s[0] == '<' {
      StringHidden(s[1..]);
      HiddenLtReads(HideLt(s[1..]));
      ConsHidden('<', ParseString(s[1..]));
    } else {
      HideHead(s);
      if s[0] == '\\' {
        var p := ParseEscape(s[1..]);
        EscapeHidden(s[1..]);
        StringHidden(p.rest);
        ConsHidden(p.value, ParseString(p.rest));
      } else if s[0] != '"' {
        StringHidden(s[1..]);
        ConsHidden(s[0], ParseString(s[1..]));
      }
    }
  }

  // --- space and numbers --------------------------------------------------------

  lemma {:induction false} SpaceHidden(s: string)
    ensures SkipSpace(HideLt(s)) == HideLt(SkipSpace(s))
  {
    if s != [] && Space(s[0]) {
      HideHead(s);
      SpaceHidden(s[1..]);
    }
  }

  lemma {:induction false} RunHidden(s: string)
    ensures NumberRun(HideLt(s)) == NumberRun(s)
    ensures AfterNumber(HideLt(s)) == HideLt(AfterNumber(s))
  {
    if s != [] {
      if s[0] != '<' {
        HideHead(s);
        RunHidden(s[1..]);
      }
    }
  }

  // --- values -------------------------------------------------------------------

  lemma WordHidden(t: string, word: string)
    requires '<' !in word && StartsWith(t, word)
    ensures StartsWith(HideLt(t), word) && HideLt(t)[|word|..] == HideLt(t[|word|..])
  {
    HideAfter(t, |word|);
  }

  /** Text that starts differently still does. */
  lemma NotWordHidden(t: string, word: string)
    requires word != [] && '<' !in word && '\\' !in word && !StartsWith(t, word)
    ensures !StartsWith(HideLt(t), word)
  {
    hide HideLt;
    var h := HideLt(t);
    if StartsWith(h, word) {
      UnhidePrefix(t, |word|, word);
    }
  }

  lemma {:induction false} UnhidePrefix(t: string, n: nat, word: string)
    requires n == |word| <= |HideLt(t)| && HideLt(t)[..n] == word && '\\' !in word
    ensures StartsWith(t, word)
  {
    if n > 0 {
      assert word[0] == HideLt(t)[..n][0] == HideLt(t)[0];
      assert word[0] in word;
      HideHead(t);
      var h := HideLt(t);
      assert h[1..][..n - 1] == word[1..] by {
        assert h[..n][1..] == h[1..][..n - 1];
      }
      UnhidePrefix(t[1..], n - 1, word[1..]);
      assert t[..n] == [t[0]] + t[1..][..n - 1];
      assert word == [word[0]] + word[1..];
    }
  }

  lemma {:induction false} ScalarHidden(t: string)
    requires ParseScalar(t).Got?
    ensures ParseScalar(HideLt(t)) == HideRest(ParseScalar(t))
    ensures t[0] != '<'
  {
    hide StartsWith, NumberRun, AfterNumber, Number, HideLt;
    if StartsWith(t, "null") {
      WordHidden(t, "null");
      WordStart(t, "null");
    } else if StartsWith(t, "true") {
      NotWordHidden(t, "null");
      WordHidden(t, "true");
      WordStart(t, "true");
    } else if StartsWith(t, "false") {
      NotWordHidden(t, "null");
      NotWordHidden(t, "true");
      WordHidden(t, "false");
      WordStart(t, "false");
    } else {
      NotWordHidden(t, "null");
      NotWordHidden(t, "true");
      NotWordHidden(t, "false");
      RunHidden(t);
      NumberStart(t);
    }
  }

  lemma WordStart(t: string, word: string)
    requires word != [] && StartsWith(t, word)
    ensures t != [] && t[0] == word[0]
  {
    assert t[..|word|][0] == t[0];
  }

  lemma NumberStart(t: string)
    requires Number(NumberRun(t))
    ensures t != [] && NumberChar(t[0])
  {
  }

  lemma {:induction false} ValueHidden(s: string)
    requires ParseValue(s).Got?
    ensures ParseValue(HideLt(s)) == HideRest(ParseValue(s))
    decreases |s|, 2
  {
    hide ParseString, ParseItems, ParseMembers, ParseScalar, HideLt, SkipSpace;
    var t := SkipSpace(s);
    SpaceHidden(s);
    if t[0] == '"' {
      HideHead(t);
      StringHidden(t[1..]);
    } else if t[0] == '[' {
      HideHead(t);
      SpaceHidden(t[1..]);
      var u := SkipSpace(t[1..]);
      ClosesHidden(u, ']');
      if !(u != [] && u[0] == ']') {
        ItemsHidden(t[1..]);
      }
    } else if t[0] == '{' {
      HideHead(t);
      SpaceHidden(t[1..]);
      var u := SkipSpace(t[1..]);
      ClosesHidden(u, '}');
      if !(u != [] && u[0] == '}') {
        MembersHidden(t[1..]);
      }
    } else {
      ScalarHidden(t);
      HideHead(t);
    }
  }

  /** Whether the text starts with a given delimiter is not changed. */
  lemma ClosesHidden(u: string, c: char)
    requires c != '<' && c != '\\'
    ensures u != [] && u[0] == c <==> HideLt(u) != [] && HideLt(u)[0] == c
    ensures u != [] && u[0] == c ==> HideLt(u)[1..] == HideLt(u[1..])
  {
    if u != [] && u[0] != '<' { HideHead(u); }
  }

  lemma {:induction false} ItemsHidden(s: string)
    requires ParseItems(s).Got?
    ensures ParseItems(HideLt(s)) == HideRest(ParseItems(s))
    decreases |s|, 3
  {
    hide ParseValue, HideLt, SkipSpace;
    ValueHidden(s);
    var more := ParseValue(s).rest;
    SpaceHidden(more);
    var t := SkipSpace(more);
    ClosesHidden(t, ']');
    ClosesHidden(t, ',');
    if t[0] == ',' { ItemsHidden(t[1..]); }
  }

  lemma {:induction false} MemberHidden(s: string)
    requires ParseMember(s).Got?
    ensures ParseMember(HideLt(s)) == HideRest(ParseMember(s))
    decreases |s|, 3
  {
    hide ParseValue, ParseString, HideLt, SkipSpace;
    SpaceHidden(s);
    var t := SkipSpace(s);
    HideHead(t);
    StringHidden(t[1..]);
    var more := ParseString(t[1..]).rest;
    SpaceHidden(more);
    var u := SkipSpace(more);
    HideHead(u);
    ValueHidden(u[1..]);
  }

  lemma {:induction false} MembersHidden(s: string)
    requires ParseMembers(s).Got?
    ensures ParseMembers(HideLt(s)) == HideRest(ParseMembers(s))
    decreases |s|, 4
  {
    hide ParseMember, HideLt, SkipSpace;
    MemberHidden(s);
    var more := ParseMember(s).rest;
    SpaceHidden(more);
    var t := SkipSpace(more);
    ClosesHidden(t, '}');
    ClosesHidden(t, ',');
    if t[0] == ',' { MembersHidden(t[1..]); }
  }

  /** For every JSON text, whoever printed it: hiding every `<` leaves its value unchanged. */
  lemma HidingKeepsMeaning(text: string)
    requires Parse(text).Some?
    ensures Parse(HideLt(text)) == Parse(text)
  {
    hide ParseValue, HideLt, SkipSpace;
    ValueHidden(text);
    var rest := ParseValue(text).rest;
    SpaceHidden(rest);
    NothingHidden();
  }

  lemma NothingHidden()
    ensures HideLt([]) == []
  {
  }

  /** The embedded props hold no `<`, and parsing them gives the value back. */
  lemma ScriptBlockReadsBack(v: Json)
    requires WellFormed(v)
    ensures '<' !in JsonForScriptBlock(v)
    ensures Parse(JsonForScriptBlock(v)) == Some(v)
  {
    NoLtLeft(Print(v));
    PrintReadsBack(v);
    HidingKeepsMeaning(Print(v));
  }

  /** Only JSON text is safe to rewrite: here the escape completes a text that did not parse. */
  lemma HidingCanMendBrokenText()
    ensures var broken := ['"', '\\', '<', '"'];
      Parse(broken) == None && Parse(HideLt(broken)) == Some(Str("\\u003c"))
  {
    hide HideLt;
    BrokenDoesNotParse();
    BrokenHidden();
    MendedParses();
  }

  lemma BrokenDoesNotParse()
    ensures Parse(['"', '\\', '<', '"']) == None
  {
    var broken := ['"', '\\', '<', '"'];
    assert broken[1..] == ['\\', '<', '"'] && broken[1..][1..] == ['<', '"'];
    assert ParseString(broken[1..]) == Fail;
  }

  lemma BrokenHidden()
    ensures HideLt(['"', '\\', '<', '"']) == ['"'] + ("\\\\u003c" + ['"'])
  {
    var broken := ['"', '\\', '<', '"'];
    var h := HideLt(broken);
    HideAfter(broken, 2);
    assert broken[2..] == ['<', '"'];
    assert HideLt(['<', '"']) == "\\u003c" + HideLt(['"']) by { assert ['<', '"'][1..] == ['"']; }
    assert HideLt(['"']) == ['"'] + HideLt([]) by { assert ['"'][1..] == []; }
    assert h == h[..2] + h[2..];
    assert h == ['"', '\\'] + ("\\u003c" + ['"']);
  }

  lemma MendedParses()
    ensures Parse(['"'] + ("\\\\u003c" + ['"'])) == Some(Str("\\u003c"))
  {
    hide ParseString;
    MendedReads();
    var h := ['"'] + ("\\\\u003c" + ['"']);
    assert h[1..] == "\\\\u003c" + ['"'];
    assert SkipSpace(h) == h;
  }

  lemma MendedReads()
    ensures ParseString("\\\\u003c" + ['"']) == Got("\\u003c", [])
  {
    var t := ['"'];
    assert t[1..] == [];
    PlainStep('c', t);
    PlainStep('3', ['c'] + t);
    PlainStep('0', ['3'] + (['c'] + t));
    PlainStep('0', ['0'] + (['3'] + (['c'] + t)));
    PlainStep('u', ['0'] + (['0'] + (['3'] + (['c'] + t))));
    var s := ['u'] + (['0'] + (['0'] + (['3'] + (['c'] + t))));
    assert ParseString(s) == Got("u003c", []) by {
      assert "u003c" == ['u'] + (['0'] + (['0'] + (['3'] + (['c'] + []))));
    }
    var escaped := ['\\', '\\'] + s;
    assert "\\\\u003c" + ['"'] == escaped;
    assert escaped[1..] == ['\\'] + s && escaped[1..][1..] == s;
    assert ParseString(escaped) == Cons('\\', ParseString(s));
    assert ['\\'] + "u003c" == "\\u003c";
  }

  lemma PlainStep(c: char, rest: string)
    requires c != '"' && c != '\\' && c >= ' '
    ensures ParseString([c] + rest) == Cons(c, ParseString(rest))
  {
    assert ([c] + rest)[1..] == rest;
  }
}
