/** JSON text (RFC 8259) and its embedding in a script element. */
module Json {
  import opened Wrappers

  datatype Json =
    | Null
    | Bool(b: bool)
    | Num(lexeme: string)
    | Str(s: string)
    | Arr(items: seq<Json>)
    | Obj(members: seq<Member>)

  datatype Member = Member(key: string, value: Json)

  // --- characters ---------------------------------------------------------------

  predicate Space(c: char) {
    c == ' ' || c == '\t' || c == '\n' || c == '\r'
  }

  function HexValue(c: char): (v: Option<nat>)
    ensures v.Some? ==> v.value < 16
  {
    if '0' <= c <= '9' then Some(c as int - '0' as int)
    else if 'a' <= c <= 'f' then Some(c as int - 'a' as int + 10)
    else if 'A' <= c <= 'F' then Some(c as int - 'A' as int + 10)
    else None
  }

  function HexDigit(n: nat): (c: char)
    requires n < 16
    ensures HexValue(c) == Some(n)
  {
    if n < 10 then ('0' as int + n) as char else ('a' as int + (n - 10)) as char
  }

  /** The four hexadecimal digits at the start of `s`. */
  function Hex4(s: string): (v: Option<nat>)
    ensures v.Some? ==> |s| >= 4 && v.value < 0x1_0000
    ensures v.Some? ==> forall i :: 0 <= i < 4 ==> HexValue(s[i]).Some?
  {
    if |s| < 4 then None
    else
      match (HexValue(s[0]), HexValue(s[1]), HexValue(s[2]), HexValue(s[3]))
      case (Some(a), Some(b), Some(c), Some(d)) => Some(((a * 16 + b) * 16 + c) * 16 + d)
      case _ => None
  }

  // --- printing -----------------------------------------------------------------

  /** What `serde_json` writes for one character of a string. */
  function EscapeChar(c: char): string {
    if c == '"' then "\\\""
    else if c == '\\' then "\\\\"
    else if c == '\U{0008}' then "\\b"
    else if c == '\U{000C}' then "\\f"
    else if c == '\n' then "\\n"
    else if c == '\r' then "\\r"
    else if c == '\t' then "\\t"
    else if c < ' ' then "\\u00" + [HexDigit(c as int / 16), HexDigit(c as int % 16)]
    else [c]
  }

  function EscapeAll(s: string): string {
    if s == [] then [] else EscapeChar(s[0]) + EscapeAll(s[1..])
  }

  function PrintString(s: string): string {
    ['"'] + (EscapeAll(s) + ['"'])
  }

  function Print(v: Json): string
    decreases v, 1
  {
    match v
    case Null => "null"
    case Bool(b) => if b then "true" else "false"
    case Num(lexeme) => lexeme
    case Str(s) => PrintString(s)
    case Arr(items) => ['['] + (PrintItems(items) + [']'])
    case Obj(members) => ['{'] + (PrintMembers(members) + ['}'])
  }

  function PrintItems(items: seq<Json>): string
    decreases items, 0
  {
    if items == [] then []
    else if |items| == 1 then Print(items[0])
    else Print(items[0]) + ([','] + PrintItems(items[1..]))
  }

  function PrintMember(m: Member): string
    decreases m, 2
  {
    PrintString(m.key) + ([':'] + Print(m.value))
  }

  function PrintMembers(members: seq<Member>): string
    decreases members, 0
  {
    if members == [] then []
    else if |members| == 1 then PrintMember(members[0])
    else PrintMember(members[0]) + ([','] + PrintMembers(members[1..]))
  }

  // --- parsing ------------------------------------------------------------------

  /** A parse and the text after it. */
  datatype Parsed<T> = Fail | Got(value: T, rest: string)

  function SkipSpace(s: string): (r: string)
    ensures |r| <= |s|
    ensures r != [] ==> !Space(r[0])
  {
    if s != [] && Space(s[0]) then SkipSpace(s[1..]) else s
  }

  /** An escape after its backslash: the character it stands for. */
  function ParseEscape(s: string): (p: Parsed<char>)
    ensures p.Got? ==> |p.rest| < |s|
  {
    if s == [] then Fail
    else if s[0] == '"' || s[0] == '\\' || s[0] == '/' then Got(s[0], s[1..])
    else if s[0] == 'b' then Got('\U{0008}', s[1..])
    else if s[0] == 'f' then Got('\U{000C}', s[1..])
    else if s[0] == 'n' then Got('\n', s[1..])
    else if s[0] == 'r' then Got('\r', s[1..])
    else if s[0] == 't' then Got('\t', s[1..])
    else if s[0] == 'u' then ParseUnicode(s[1..])
    else Fail
  }

  /** The digits of a `\u` escape; a character outside the basic plane takes a surrogate pair. */
  function ParseUnicode(s: string): (p: Parsed<char>)
    ensures p.Got? ==> |p.rest| <= |s|
  {
    match Hex4(s)
    case None => Fail
    case Some(u) =>
      if u < 0xD800 || 0xE000 <= u then Got(u as char, s[4..])
      else if 0xDC00 <= u || |s| < 6 || s[4] != '\\' || s[5] != 'u' then Fail
      else
        match Hex4(s[6..])
        case None => Fail
        case Some(l) =>
          if l < 0xDC00 || 0xE000 <= l then Fail
          else Got((0x1_0000 + (u - 0xD800) * 0x400 + (l - 0xDC00)) as char, s[10..])
  }

  /** The text of a string after its opening quote. */
  function ParseString(s: string): (p: Parsed<string>)
    ensures p.Got? ==> |p.rest| < |s|
    decreases |s|
  {
    if s == [] then Fail
    else if s[0] == '"' then Got([], s[1..])
    else if s[0] == '\\' then
      match ParseEscape(s[1..])
      case Fail => Fail
      case Got(c, rest) => Cons(c, ParseString(rest))
    else if s[0] < ' ' then Fail
    else Cons(s[0], ParseString(s[1..]))
  }

  function Cons(c: char, p: Parsed<string>): Parsed<string> {
    match p
    case Fail => Fail
    case Got(t, rest) => Got([c] + t, rest)
  }

  predicate NumberChar(c: char) {
    '0' <= c <= '9' || c == '-' || c == '+' || c == '.' || c == 'e' || c == 'E'
  }

  function NumberRun(s: string): (r: string)
    ensures |r| <= |s|
  {
    if s != [] && NumberChar(s[0]) then [s[0]] + NumberRun(s[1..]) else []
  }

  function AfterNumber(s: string): (r: string)
    ensures |r| == |s| - |NumberRun(s)|
  {
    if s != [] && NumberChar(s[0]) then AfterNumber(s[1..]) else s
  }

  function DropDigits(s: string): string {
    if s != [] && '0' <= s[0] <= '9' then DropDigits(s[1..]) else s
  }

  predicate StartsWithDigit(s: string) {
    s != [] && '0' <= s[0] <= '9'
  }

  /** `[ exp ]` of section 6. */
  predicate ExponentOrEnd(s: string) {
    s == []
    || ((s[0] == 'e' || s[0] == 'E')
        && var digits := if |s| > 1 && (s[1] == '+' || s[1] == '-') then s[2..] else s[1..];
           StartsWithDigit(digits) && DropDigits(digits) == [])
  }

  /** `[ frac ] [ exp ]` of section 6. */
  predicate FractionOrEnd(s: string) {
    if s != [] && s[0] == '.' then StartsWithDigit(s[1..]) && ExponentOrEnd(DropDigits(s[1..]))
    else ExponentOrEnd(s)
  }

  /** `number` of section 6: no leading zeros, digits on both sides of a point. */
  predicate Number(s: string) {
    var t := if s != [] && s[0] == '-' then s[1..] else s;
    && StartsWithDigit(t)
    && FractionOrEnd(if t[0] == '0' then t[1..] else DropDigits(t))
  }

  predicate StartsWith(s: string, prefix: string) {
    |s| >= |prefix| && s[..|prefix|] == prefix
  }

  function ParseValue(s: string): (p: Parsed<Json>)
    ensures p.Got? ==> |p.rest| < |s|
    decreases |s|, 2
  {
    var t := SkipSpace(s);
    if t == [] then Fail
    else if t[0] == '"' then
      match ParseString(t[1..])
      case Fail => Fail
      case Got(text, rest) => Got(Str(text), rest)
    else if t[0] == '[' then
      var u := SkipSpace(t[1..]);
      if u != [] && u[0] == ']' then Got(Arr([]), u[1..])
      else
        match ParseItems(t[1..])
        case Fail => Fail
        case Got(items, rest) => Got(Arr(items), rest)
    else if t[0] == '{' then
      var u := SkipSpace(t[1..]);
      if u != [] && u[0] == '}' then Got(Obj([]), u[1..])
      else
        match ParseMembers(t[1..])
        case Fail => Fail
        case Got(members, rest) => Got(Obj(members), rest)
    else ParseScalar(t)
  }

  function ParseScalar(t: string): (p: Parsed<Json>)
    ensures p.Got? ==> |p.rest| < |t|
  {
    if StartsWith(t, "null") then Got(Null, t[4..])
    else if StartsWith(t, "true") then Got(Bool(true), t[4..])
    else if StartsWith(t, "false") then Got(Bool(false), t[5..])
    else if Number(NumberRun(t)) then Got(Num(NumberRun(t)), AfterNumber(t))
    else Fail
  }

  /** At least one item, up to the closing bracket. */
  function ParseItems(s: string): (p: Parsed<seq<Json>>)
    ensures p.Got? ==> |p.rest| < |s|
    decreases |s|, 3
  {
    match ParseValue(s)
    case Fail => Fail
    case Got(v, more) =>
      var t := SkipSpace(more);
      if t != [] && t[0] == ']' then Got([v], t[1..])
      else if t != [] && t[0] == ',' then
        match ParseItems(t[1..])
        case Fail => Fail
        case Got(vs, rest) => Got([v] + vs, rest)
      else Fail
  }

  function ParseMember(s: string): (p: Parsed<Member>)
    ensures p.Got? ==> |p.rest| < |s|
    decreases |s|, 3
  {
    var t := SkipSpace(s);
    if t == [] || t[0] != '"' then Fail
    else
      match ParseString(t[1..])
      case Fail => Fail
      case Got(key, more) =>
        var u := SkipSpace(more);
        if u == [] || u[0] != ':' then Fail
        else
          match ParseValue(u[1..])
          case Fail => Fail
          case Got(v, rest) => Got(Member(key, v), rest)
  }

  /** At least one member, up to the closing brace. */
  function ParseMembers(s: string): (p: Parsed<seq<Member>>)
    ensures p.Got? ==> |p.rest| < |s|
    decreases |s|, 4
  {
    match ParseMember(s)
    case Fail => Fail
    case Got(m, more) =>
      var t := SkipSpace(more);
      if t != [] && t[0] == '}' then Got([m], t[1..])
      else if t != [] && t[0] == ',' then
        match ParseMembers(t[1..])
        case Fail => Fail
        case Got(ms, rest) => Got([m] + ms, rest)
      else Fail
  }

  /** A whole JSON text. */
  function Parse(s: string): Option<Json> {
    match ParseValue(s)
    case Fail => None
    case Got(v, rest) => if SkipSpace(rest) == [] then Some(v) else None
  }

  // --- printing reads back ------------------------------------------------------

  predicate WellFormed(v: Json) {
    match v
    case Num(lexeme) => Number(lexeme) && forall i :: 0 <= i < |lexeme| ==> NumberChar(lexeme[i])
    case Arr(items) => forall i :: 0 <= i < |items| ==> WellFormed(items[i])
    case Obj(members) => forall i :: 0 <= i < |members| ==> WellFormed(members[i].value)
    case _ => true
  }

  /** What may follow a value: nothing a number could run on into. */
  predicate Ends(rest: string) {
    rest != [] ==> !NumberChar(rest[0])
  }

  lemma ControlReads(c: char, rest: string)
    requires c < ' '
    ensures ParseUnicode(['0', '0', HexDigit(c as int / 16), HexDigit(c as int % 16)] + rest) == Got(c, rest)
  {
    var s := ['0', '0', HexDigit(c as int / 16), HexDigit(c as int % 16)] + rest;
    assert Hex4(s) == Some(c as int);
    assert s[4..] == rest;
  }

  /** A two-character escape is read as the character it stands for. */
  lemma ShortEscapeReads(e: char, c: char, rest: string)
    requires ParseEscape([e] + rest) == Got(c, rest)
    ensures ParseString(['\\', e] + rest) == Cons(c, ParseString(rest))
  {
    assert (['\\', e] + rest)[1..] == [e] + rest;
  }

  lemma ShortEscapeStandsFor(c: char, rest: string)
    requires |EscapeChar(c)| == 2
    ensures EscapeChar(c)[0] == '\\' && ParseEscape([EscapeChar(c)[1]] + rest) == Got(c, rest)
  {
    var s := [EscapeChar(c)[1]] + rest;
    assert s[1..] == rest;
  }

  lemma PlainReads(c: char, rest: string)
    requires |EscapeChar(c)| == 1
    ensures ParseString(EscapeChar(c) + rest) == Cons(c, ParseString(rest))
  {
    assert ([c] + rest)[1..] == rest;
  }

  lemma ControlEscapeReads(c: char, rest: string)
    requires c < ' '
    ensures ParseString("\\u00" + [HexDigit(c as int / 16), HexDigit(c as int % 16)] + rest)
         == Cons(c, ParseString(rest))
  {
    hide HexDigit;
    var hex := ['0', '0', HexDigit(c as int / 16), HexDigit(c as int % 16)];
    var s := "\\u00" + [HexDigit(c as int / 16), HexDigit(c as int % 16)] + rest;
    assert s == ['\\', 'u'] + (hex + rest);
    assert s[1..] == ['u'] + (hex + rest) && s[1..][1..] == hex + rest;
    ControlReads(c, rest);
  }

  lemma EscapeLengths(c: char)
    ensures |EscapeChar(c)| == 1 || |EscapeChar(c)| == 2
            || (c < ' ' && EscapeChar(c) == "\\u00" + [HexDigit(c as int / 16), HexDigit(c as int % 16)])
  {
  }

  lemma EscapeReads(c: char, rest: string)
    ensures ParseString(EscapeChar(c) + rest) == Cons(c, ParseString(rest))
  {
    hide ParseString, ParseEscape, EscapeChar, HexDigit;
    var e := EscapeChar(c);
    EscapeLengths(c);
    if |e| == 2 {
      ShortEscapeStandsFor(c, rest);
      ShortEscapeReads(e[1], c, rest);
      assert e == ['\\', e[1]];
    } else if |e| == 1 {
      PlainReads(c, rest);
    } else {
      ControlEscapeReads(c, rest);
    }
  }

  lemma QuoteEnds(rest: string)
    ensures ParseString(['"'] + rest) == Got([], rest)
  {
    assert (['"'] + rest)[1..] == rest;
  }

  lemma {:induction false} StringReads(s: string, rest: string)
    ensures ParseString(EscapeAll(s) + (['"'] + rest)) == Got(s, rest)
  {
    hide EscapeChar, ParseString;
    if s == [] {
      assert EscapeAll(s) + (['"'] + rest) == ['"'] + rest;
      QuoteEnds(rest);
    } else {
      var more := EscapeAll(s[1..]) + (['"'] + rest);
      StringReads(s[1..], rest);
      EscapeReads(s[0], more);
      assert EscapeAll(s) + (['"'] + rest) == EscapeChar(s[0]) + more;
      assert s == [s[0]] + s[1..];
    }
  }

  lemma PrintedStringReads(s: string, rest: string)
    ensures var t := PrintString(s) + rest;
      && t != [] && t[0] == '"' && ParseString(t[1..]) == Got(s, rest)
  {
    hide ParseString, EscapeAll;
    var t := PrintString(s) + rest;
    StringReads(s, rest);
    assert t[1..] == EscapeAll(s) + (['"'] + rest);
  }

  lemma {:induction false} NumberRunReads(lexeme: string, rest: string)
    requires forall i :: 0 <= i < |lexeme| ==> NumberChar(lexeme[i])
    requires Ends(rest)
    ensures NumberRun(lexeme + rest) == lexeme && AfterNumber(lexeme + rest) == rest
  {
    if lexeme == [] {
      assert lexeme + rest == rest;
    } else {
      assert (lexeme + rest)[1..] == lexeme[1..] + rest;
      NumberRunReads(lexeme[1..], rest);
      assert lexeme == [lexeme[0]] + lexeme[1..];
    }
  }

  lemma PrefixReads(literal: string, rest: string)
    ensures StartsWith(literal + rest, literal) && (literal + rest)[|literal|..] == rest
  {
  }

  lemma ScalarPath(t: string)
    requires t != [] && !Space(t[0]) && t[0] != '"' && t[0] != '[' && t[0] != '{'
    ensures ParseValue(t) == ParseScalar(t)
  {
    hide ParseScalar;
  }

  lemma WordReads(word: string, v: Json, rest: string)
    requires (word == "null" && v == Null) || (word == "true" && v == Bool(true)) || (word == "false" && v == Bool(false))
    ensures ParseValue(word + rest) == Got(v, rest)
  {
    hide ParseValue, NumberRun, AfterNumber, Number;
    PrefixReads(word, rest);
    var t := word + rest;
    assert t[0] == word[0];
    ScalarPath(t);
    assert |t| >= 4 ==> t[..4][0] == t[0];
  }

  lemma NotAWord(t: string)
    requires t != [] && NumberChar(t[0])
    ensures !StartsWith(t, "null") && !StartsWith(t, "true") && !StartsWith(t, "false")
  {
    assert |t| >= 4 ==> t[..4][0] == t[0];
    assert |t| >= 5 ==> t[..5][0] == t[0];
  }

  lemma NumberReads(lexeme: string, rest: string)
    requires WellFormed(Num(lexeme)) && Ends(rest)
    ensures ParseValue(lexeme + rest) == Got(Num(lexeme), rest)
  {
    hide ParseValue, NumberRun, AfterNumber, StartsWith;
    var t := lexeme + rest;
    NumberRunReads(lexeme, rest);
    assert t[0] == lexeme[0];
    ScalarPath(t);
    NotAWord(t);
  }

  lemma ScalarReads(v: Json, rest: string)
    requires WellFormed(v) && (v.Null? || v.Bool? || v.Num?) && Ends(rest)
    ensures ParseValue(Print(v) + rest) == Got(v, rest)
  {
    hide ParseValue;
    match v {
      case Null => WordReads("null", v, rest);
      case Bool(b) => WordReads(if b then "true" else "false", v, rest);
      case Num(lexeme) => NumberReads(lexeme, rest);
    }
  }

  /** A printed value starts with something that is neither space nor a closing bracket. */
  lemma PrintStarts(v: Json)
    requires WellFormed(v)
    ensures Print(v) != [] && !Space(Print(v)[0]) && Print(v)[0] != ']' && Print(v)[0] != '}'
  {
    if v.Num? {
      assert NumberChar(v.lexeme[0]);
    }
  }

  lemma {:induction false} ValueReads(v: Json, rest: string)
    requires WellFormed(v) && Ends(rest)
    ensures ParseValue(Print(v) + rest) == Got(v, rest)
    decreases v, 1
  {
    hide Print, PrintItems, PrintMembers, ParseItems, ParseMembers, ParseString, ParseScalar, Number, NumberRun;
    match v {
      case Str(s) =>
        StringValueReads(s, rest);
      case Arr(items) =>
        if items == [] {
          EmptyReads(rest);
        } else {
          ItemsRead(items, rest);
          ArrayReads(items, rest);
        }
      case Obj(members) =>
        if members == [] {
          EmptyReads(rest);
        } else {
          MembersRead(members, rest);
          ObjectReads(members, rest);
        }
      case _ =>
        ScalarReads(v, rest);
    }
  }

  lemma StringValueReads(s: string, rest: string)
    ensures ParseValue(Print(Str(s)) + rest) == Got(Str(s), rest)
  {
    hide ParseItems, ParseMembers, ParseScalar, PrintString, ParseString;
    PrintedStringReads(s, rest);
    var t := PrintString(s) + rest;
    assert SkipSpace(t) == t;
  }

  lemma EmptyReads(rest: string)
    ensures ParseValue(Print(Arr([])) + rest) == Got(Arr([]), rest)
    ensures ParseValue(Print(Obj([])) + rest) == Got(Obj([]), rest)
  {
    hide ParseItems, ParseMembers, ParseScalar, ParseString;
    var t := Print(Arr([])) + rest;
    assert t == "[]" + rest && t[1..] == "]" + rest && t[1..][1..] == rest;
    var u := Print(Obj([])) + rest;
    assert u == "{}" + rest && u[1..] == "}" + rest && u[1..][1..] == rest;
  }

  lemma {:induction false} ArrayReads(items: seq<Json>, rest: string)
    requires items != [] && WellFormed(items[0])
    requires ParseItems(PrintItems(items) + ([']'] + rest)) == Got(items, rest)
    ensures ParseValue(Print(Arr(items)) + rest) == Got(Arr(items), rest)
  {
    hide ParseItems, ParseMembers, ParseScalar, ParseString, PrintItems;
    var inner := PrintItems(items) + ([']'] + rest);
    var t := Print(Arr(items)) + rest;
    assert t == ['['] + inner && t[1..] == inner;
    ItemsStart(items);
    assert inner[0] == PrintItems(items)[0];
    assert SkipSpace(inner) == inner;
  }

  lemma ItemsStart(items: seq<Json>)
    requires items != [] && WellFormed(items[0])
    ensures PrintItems(items) != [] && !Space(PrintItems(items)[0]) && PrintItems(items)[0] != ']'
  {
    PrintStarts(items[0]);
  }

  lemma ObjectReads(members: seq<Member>, rest: string)
    requires members != []
    requires ParseMembers(PrintMembers(members) + (['}'] + rest)) == Got(members, rest)
    ensures ParseValue(Print(Obj(members)) + rest) == Got(Obj(members), rest)
  {
    hide ParseItems, ParseMembers, ParseScalar, ParseString, PrintMembers;
    var inner := PrintMembers(members) + (['}'] + rest);
    var t := Print(Obj(members)) + rest;
    assert t == ['{'] + inner && t[1..] == inner;
    MembersStart(members);
    assert inner[0] == PrintMembers(members)[0];
    assert SkipSpace(inner) == inner;
  }

  lemma MembersStart(members: seq<Member>)
    requires members != []
    ensures PrintMembers(members) != [] && PrintMembers(members)[0] == '"'
  {
  }

  lemma SkipNothing(c: char, rest: string)
    requires !Space(c)
    ensures SkipSpace([c] + rest) == [c] + rest && ([c] + rest)[1..] == rest
  {
  }

  lemma LastItem(v: Json, rest: string, s: string)
    requires ParseValue(s) == Got(v, [']'] + rest)
    ensures ParseItems(s) == Got([v], rest)
  {
    hide ParseValue;
    SkipNothing(']', rest);
  }

  lemma MoreItems(v: Json, vs: seq<Json>, more: string, rest: string, s: string)
    requires ParseValue(s) == Got(v, [','] + more) && ParseItems(more) == Got(vs, rest)
    ensures ParseItems(s) == Got([v] + vs, rest)
  {
    hide ParseValue;
    SkipNothing(',', more);
  }

  lemma {:induction false} ItemsRead(items: seq<Json>, rest: string)
    requires items != [] && forall i :: 0 <= i < |items| ==> WellFormed(items[i])
    ensures ParseItems(PrintItems(items) + ([']'] + rest)) == Got(items, rest)
    decreases items, 0
  {
    hide Print, ParseValue, ParseItems;
    var s := PrintItems(items) + ([']'] + rest);
    if |items| == 1 {
      ValueReads(items[0], [']'] + rest);
      LastItem(items[0], rest, s);
      assert items == [items[0]];
    } else {
      var tail := PrintItems(items[1..]);
      ItemsRead(items[1..], rest);
      ValueReads(items[0], [','] + (tail + ([']'] + rest)));
      Regroup(Print(items[0]), ',', tail, [']'] + rest);
      MoreItems(items[0], items[1..], tail + ([']'] + rest), rest, s);
      assert items == [items[0]] + items[1..];
    }
  }

  lemma {:induction false} MemberReads(m: Member, rest: string)
    requires WellFormed(m.value) && Ends(rest)
    ensures ParseMember(PrintMember(m) + rest) == Got(m, rest)
    decreases m, 2
  {
    hide Print, ParseValue, PrintString, ParseString;
    var value := Print(m.value) + rest;
    var s := PrintString(m.key) + ([':'] + value);
    assert PrintMember(m) + rest == s;
    PrintedStringReads(m.key, [':'] + value);
    assert SkipSpace(s) == s;
    SkipNothing(':', value);
    ValueReads(m.value, rest);
  }

  lemma LastMember(m: Member, rest: string, s: string)
    requires ParseMember(s) == Got(m, ['}'] + rest)
    ensures ParseMembers(s) == Got([m], rest)
  {
    hide ParseMember;
    SkipNothing('}', rest);
  }

  lemma MoreMembers(m: Member, ms: seq<Member>, more: string, rest: string, s: string)
    requires ParseMember(s) == Got(m, [','] + more) && ParseMembers(more) == Got(ms, rest)
    ensures ParseMembers(s) == Got([m] + ms, rest)
  {
    hide ParseMember;
    SkipNothing(',', more);
  }

  lemma {:induction false} MembersRead(members: seq<Member>, rest: string)
    requires members != [] && forall i :: 0 <= i < |members| ==> WellFormed(members[i].value)
    ensures ParseMembers(PrintMembers(members) + (['}'] + rest)) == Got(members, rest)
    decreases members, 0
  {
    hide PrintMember, ParseMember, ParseMembers;
    var s := PrintMembers(members) + (['}'] + rest);
    if |members| == 1 {
      MemberReads(members[0], ['}'] + rest);
      LastMember(members[0], rest, s);
      assert members == [members[0]];
    } else {
      var tail := PrintMembers(members[1..]);
      MembersRead(members[1..], rest);
      MemberReads(members[0], [','] + (tail + (['}'] + rest)));
      Regroup(PrintMember(members[0]), ',', tail, ['}'] + rest);
      MoreMembers(members[0], members[1..], tail + (['}'] + rest), rest, s);
      assert members == [members[0]] + members[1..];
    }
  }

  lemma Regroup(a: string, c: char, b: string, rest: string)
    ensures (a + ([c] + b)) + rest == a + ([c] + (b + rest))
  {
  }

  /** Every value is read back from its printed text. */
  lemma PrintReadsBack(v: Json)
    requires WellFormed(v)
    ensures Parse(Print(v)) == Some(v)
  {
    ValueReads(v, []);
    assert Print(v) + [] == Print(v);
  }
}
