/** The `Link` response header: the parser of pagination.rs, and the RFC 8288 form it must read. */
module LinkHeader {
  import opened Wrappers
  import opened Text

  // --- scanning -----------------------------------------------------------------

  /** One bracketed URL and the text up to the next opening bracket. */
  datatype RawLink = RawLink(url: string, params: string)

  /** A header cut at its angle brackets; `tail` is an opening bracket that is never closed. */
  datatype Scanned = Scanned(links: seq<RawLink>, tail: string)

  function Bracketed(url: string, rest: string): string {
    "<" + (url + (">" + rest))
  }

  function Unscan(sc: Scanned): string
    decreases |sc.links|
  {
    if sc.links == [] then sc.tail
    else Bracketed(sc.links[0].url, sc.links[0].params + Unscan(Scanned(sc.links[1..], sc.tail)))
  }

  /** The pieces are cut where a bracket demands it. */
  ghost predicate ProperPieces(sc: Scanned) {
    && (forall k :: 0 <= k < |sc.links| ==> '>' !in sc.links[k].url && '<' !in sc.links[k].params)
    && (sc.tail != [] ==> sc.tail[0] == '<' && '>' !in sc.tail)
  }

  /** `header` is some text without an opening bracket and then the pieces of `sc`. */
  ghost predicate CutsInto(header: string, lead: string, sc: Scanned) {
    header == lead + Unscan(sc) && '<' !in lead && ProperPieces(sc)
  }

  function Prepend(link: RawLink, sc: Scanned): Scanned {
    Scanned([link] + sc.links, sc.tail)
  }

  function Scan(header: string): Scanned
    decreases |header|
  {
    var open := From(header, '<');
    if open == [] then Scanned([], [])
    else
      var closed := From(open[1..], '>');
      if closed == [] then Scanned([], open)
      else
        Prepend(RawLink(Before(open[1..], '>'), Before(closed[1..], '<')), Scan(From(closed[1..], '<')))
  }

  lemma ScanLead(lead: string, rest: string)
    requires '<' !in lead
    requires rest != [] ==> rest[0] == '<'
    ensures Scan(lead + rest) == Scan(rest)
  {
    CutAt(lead, '<', rest);
    CutAt([], '<', rest);
    assert [] + rest == rest;
  }

  lemma {:induction false} ScanStep(url: string, params: string, rest: string)
    requires '>' !in url && '<' !in params
    requires rest != [] ==> rest[0] == '<'
    ensures Scan(Bracketed(url, params + rest)) == Prepend(RawLink(url, params), Scan(rest))
  {
    var header := Bracketed(url, params + rest);
    assert From(header, '<') == header;
    assert header[1..] == url + (">" + (params + rest));
    CutAt(url, '>', ">" + (params + rest));
    assert (">" + (params + rest))[1..] == params + rest;
    CutAt(params, '<', rest);
  }

  lemma ScanUnclosed(tail: string)
    requires tail != [] && tail[0] == '<' && '>' !in tail
    ensures Scan(tail) == Scanned([], tail)
  {
    assert From(tail, '<') == tail;
    CutNone(tail[1..], '>');
  }

  lemma UnscanStarts(sc: Scanned)
    requires ProperPieces(sc)
    ensures Unscan(sc) != [] ==> Unscan(sc)[0] == '<'
  {
  }

  lemma {:induction false} ScanOfPieces(sc: Scanned)
    requires ProperPieces(sc)
    ensures Scan(Unscan(sc)) == sc
    decreases |sc.links|
  {
    if sc.links == [] {
      if sc.tail != [] { ScanUnclosed(sc.tail); }
    } else {
      var rest := Scanned(sc.links[1..], sc.tail);
      ScanOfPieces(rest);
      UnscanStarts(rest);
      ScanStep(sc.links[0].url, sc.links[0].params, Unscan(rest));
      assert sc.links == [sc.links[0]] + sc.links[1..];
    }
  }

  /** Every string is cut by its brackets in at most one way, and `Scan` finds that one. */
  lemma ScanIsTheCut(header: string, lead: string, sc: Scanned)
    requires CutsInto(header, lead, sc)
    ensures Scan(header) == sc
  {
    ScanOfPieces(sc);
    UnscanStarts(sc);
    ScanLead(lead, Unscan(sc));
  }

  lemma UnscanPrepend(link: RawLink, sc: Scanned)
    ensures Unscan(Prepend(link, sc)) == Bracketed(link.url, link.params + Unscan(sc))
  {
    assert ([link] + sc.links)[1..] == sc.links;
    assert Scanned(sc.links, sc.tail) == sc;
  }

  lemma CutsPrepend(lead: string, url: string, params: string, rest: string, sc: Scanned)
    requires '<' !in lead && '>' !in url && '<' !in params
    requires rest == Unscan(sc) && ProperPieces(sc)
    ensures CutsInto(lead + (['<'] + (url + (['>'] + (params + rest)))), lead, Prepend(RawLink(url, params), sc))
  {
    UnscanPrepend(RawLink(url, params), sc);
  }

  lemma Reassemble(lead: string, open: string, url: string, closed: string, params: string, rest: string)
    requires open == ['<'] + (url + closed)
    requires closed == ['>'] + (params + rest)
    ensures lead + open == lead + (['<'] + (url + (['>'] + (params + rest))))
  {
  }

  lemma Uncons(s: string, c: char, a: string, b: string)
    requires s != [] && s[0] == c && s[1..] == a + b
    ensures s == [c] + (a + b)
  {
  }

  /** Every string is cut by its brackets: scanning loses nothing but the lead. */
  lemma {:induction false} ScanCuts(header: string)
    ensures CutsInto(header, Before(header, '<'), Scan(header))
    decreases |header|, 0
  {
    BeforeFrom(header, '<');
    var lead, open := Before(header, '<'), From(header, '<');
    if open != [] {
      BeforeFrom(open[1..], '>');
      var url, closed := Before(open[1..], '>'), From(open[1..], '>');
      Uncons(open, '<', url, closed);
      if closed != [] {
        BeforeFrom(closed[1..], '<');
        var params, rest := Before(closed[1..], '<'), From(closed[1..], '<');
        Uncons(closed, '>', params, rest);
        ScanCutsRest(rest);
        Reassemble(lead, open, url, closed, params, rest);
        CutsPrepend(lead, url, params, rest, Scan(rest));
      }
    }
  }

  lemma {:induction false} ScanCutsRest(rest: string)
    requires rest != [] ==> rest[0] == '<'
    ensures rest == Unscan(Scan(rest)) && ProperPieces(Scan(rest))
    decreases |rest|, 1
  {
    ScanCuts(rest);
    assert [] + Unscan(Scan(rest)) == Unscan(Scan(rest));
  }

  // --- which link is next -------------------------------------------------------

  function TrimMatchesStart(s: string, c: char): string {
    if s != [] && s[0] == c then TrimMatchesStart(s[1..], c) else s
  }

  function TrimMatchesEnd(s: string, c: char): string {
    if s != [] && s[|s| - 1] == c then TrimMatchesEnd(s[..|s| - 1], c) else s
  }

  /** `trim_matches('"')`. */
  function Unquote(s: string): string {
    TrimMatchesEnd(TrimMatchesStart(s, '"'), '"')
  }

  /** The value of a parameter without the blanks, the list comma and the quotes around it. */
  function ParameterValue(raw: string): string {
    Unquote(Trim(TrimMatchesEnd(Trim(raw), ',')))
  }

  /** Some whitespace-separated relation type is `next`, in any ASCII case. */
  predicate ListsNext(relations: string) {
    var words := Words(relations);
    exists k :: 0 <= k < |words| && EqIgnoreCase(words[k], "next")
  }

  /** One `;`-separated parameter that is a `rel` listing `next`. */
  predicate NamesNext(param: string) {
    var rest := From(param, '=');
    && rest != []
    && EqIgnoreCase(Trim(Before(param, '=')), "rel")
    && ListsNext(ParameterValue(rest[1..]))
  }

  predicate AnyNamesNext(params: seq<string>) {
    exists k :: 0 <= k < |params| && NamesNext(params[k])
  }

  predicate IsNext(params: string) {
    AnyNamesNext(Split(params, ';'))
  }

  function FirstNext(links: seq<RawLink>): (next: Option<string>)
  {
    if links == [] then None
    else if IsNext(links[0].params) then Some(links[0].url)
    else FirstNext(links[1..])
  }

  /** `next` is the url of the first of the links that names it, or there is none. */
  ghost predicate IsFirstNext(links: seq<RawLink>, next: Option<string>) {
    match next
    case None => forall k :: 0 <= k < |links| ==> !IsNext(links[k].params)
    case Some(url) => exists k ::
      && 0 <= k < |links| && IsNext(links[k].params) && url == links[k].url
      && forall j :: 0 <= j < k ==> !IsNext(links[j].params)
  }

  lemma {:induction false} FirstNextIsFirst(links: seq<RawLink>)
    ensures IsFirstNext(links, FirstNext(links))
  {
    hide IsNext;
    if links != [] && !IsNext(links[0].params) {
      FirstNextIsFirst(links[1..]);
      assert links == [links[0]] + links[1..];
      if FirstNext(links[1..]).Some? {
        var k :| 0 <= k < |links[1..]| && IsNext(links[1..][k].params) && FirstNext(links[1..]).value == links[1..][k].url
          && forall j :: 0 <= j < k ==> !IsNext(links[1..][j].params);
        assert IsNext(links[k + 1].params) && FirstNext(links).value == links[k + 1].url;
        assert forall j :: 0 <= j < k + 1 ==> links[j] == if j == 0 then links[0] else links[1..][j - 1];
      }
    }
  }

  /** A header with no readable link, or one left unclosed before any next link. */
  datatype HeaderError = Unparseable(bytes: nat)

  /** What a cut header announces: the first next link wins over an unclosed tail. */
  function Verdict(sc: Scanned, seenLink: bool, bytes: nat): Result<Option<string>, HeaderError> {
    match FirstNext(sc.links)
    case Some(url) => Ok(Some(url))
    case None =>
      if sc.tail != [] || (sc.links == [] && !seenLink) then Err(Unparseable(bytes)) else Ok(None)
  }

  function Announced(header: string): Result<Option<string>, HeaderError> {
    Verdict(Scan(header), false, ByteLength(header))
  }

  lemma VerdictPrepend(link: RawLink, sc: Scanned, seenLink: bool, bytes: nat)
    ensures Verdict(Prepend(link, sc), seenLink, bytes)
         == if IsNext(link.params) then Ok(Some(link.url)) else Verdict(sc, true, bytes)
  {
    assert ([link] + sc.links)[1..] == sc.links;
  }

  method NextRelation(header: string) returns (r: Result<Option<string>, HeaderError>)
    ensures r == Announced(header)
  {
    var bytes := ByteLength(header);
    var rest := header;
    var seenLink := false;
    while From(rest, '<') != []
      invariant Verdict(Scan(rest), seenLink, bytes) == Announced(header)
      decreases |rest|
    {
      var after := From(rest, '<')[1..];
      var close := From(after, '>');
      if close == [] {
        return Err(Unparseable(bytes));
      }
      var url := Before(after, '>');
      var params := close[1..];
      ghost var more := Scan(From(params, '<'));
      VerdictPrepend(RawLink(url, Before(params, '<')), more, seenLink, bytes);
      seenLink := true;
      if IsNext(Before(params, '<')) {
        return Ok(Some(url));
      }
      rest := From(params, '<');
    }
    if seenLink {
      r := Ok(None);
    } else {
      r := Err(Unparseable(bytes));
    }
  }

  /** No bracket opens, or an unclosed one is met and none of the links closed before it is a next link. */
  ghost predicate Unreadable(header: string) {
    || '<' !in header
    || exists lead, links: seq<RawLink>, tail ::
         && CutsInto(header, lead, Scanned(links, tail))
         && tail != []
         && forall k :: 0 <= k < |links| ==> !IsNext(links[k].params)
  }

  /** What any text, cut by its brackets into `links` and an unclosed `tail`, announces. */
  lemma AnnouncedExactly(header: string, lead: string, links: seq<RawLink>, tail: string, url: string)
    requires CutsInto(header, lead, Scanned(links, tail))
    ensures IsFirstNext(links, Some(url)) ==> Announced(header) == Ok(Some(url))
    ensures IsFirstNext(links, None) ==>
      Announced(header) == if links == [] || tail != [] then Err(Unparseable(ByteLength(header))) else Ok(None)
  {
    hide IsNext;
    ScanIsTheCut(header, lead, Scanned(links, tail));
    FirstNextIsFirst(links);
    if IsFirstNext(links, Some(url)) {
      OneFirst(links, url);
    }
  }

  lemma OneFirst(links: seq<RawLink>, url: string)
    requires IsFirstNext(links, Some(url))
    ensures FirstNext(links) == Some(url)
  {
    hide IsNext, FirstNext;
    FirstNextIsFirst(links);
    var k :| 0 <= k < |links| && IsNext(links[k].params) && url == links[k].url
      && forall j :: 0 <= j < k ==> !IsNext(links[j].params);
    if FirstNext(links).Some? {
      var i :| 0 <= i < |links| && IsNext(links[i].params) && FirstNext(links).value == links[i].url
        && forall j :: 0 <= j < i ==> !IsNext(links[j].params);
      assert i == k;
    }
  }

  /** For any text at all: the header fails exactly when it is unreadable. */
  lemma FailsExactly(header: string)
    ensures Announced(header).Err? <==> Unreadable(header)
  {
    hide IsNext;
    ScanCuts(header);
    BeforeFrom(header, '<');
    var sc := Scan(header);
    FirstNextIsFirst(sc.links);
    if Announced(header).Err? && '<' in header {
      assert sc == Scanned(sc.links, sc.tail);
    }
    forall l, links: seq<RawLink>, tail | CutsInto(header, l, Scanned(links, tail))
      ensures sc == Scanned(links, tail)
    {
      ScanIsTheCut(header, l, Scanned(links, tail));
    }
  }

  // --- RFC 8288 section 3 -------------------------------------------------------

  /** OWS and BWS: spaces and tabs. */
  predicate Blank(s: string) {
    forall i :: 0 <= i < |s| ==> s[i] == ' ' || s[i] == '\t'
  }

  /** `tchar` of RFC 9110 section 5.6.2. */
  predicate TokenChar(c: char) {
    || '0' <= c <= '9' || 'a' <= c <= 'z' || 'A' <= c <= 'Z'
    || c == '!' || '#' <= c <= '\'' || c == '*' || c == '+' || c == '-' || c == '.'
    || '^' <= c <= '`' || c == '|' || c == '~'
  }

  /** As that section has it: a visible character that is no delimiter. */
  lemma TokenCharExactly(c: char)
    ensures TokenChar(c) <==> '!' <= c <= '~' && c !in "\"(),/:;<=>?@[\\]{}"
  {
  }

  predicate Token(s: string) {
    s != [] && forall i :: 0 <= i < |s| ==> TokenChar(s[i])
  }

  /** Quoted text this parser aims for: no quote, backslash, `;` or `<` inside. */
  predicate QuotedText(s: string) {
    forall i :: 0 <= i < |s| ==> s[i] != '"' && s[i] != '\\' && s[i] != ';' && s[i] != '<'
  }

  datatype ParamValue = Bare(text: string) | Quoted(text: string)

  /** `OWS ";" OWS token BWS [ "=" BWS ( token / quoted-string ) ]` */
  datatype Param = Param(before: string, after: string, name: string, bws1: string, bws2: string,
                         value: Option<ParamValue>)

  /** One link-value; `left "," right` separates it from the link after it. */
  datatype Link = Link(url: string, params: seq<Param>, left: string, right: string)

  predicate ValueForm(v: ParamValue) {
    match v
    case Bare(text) => Token(text)
    case Quoted(text) => QuotedText(text)
  }

  predicate ParamForm(p: Param) {
    && Blank(p.before) && Blank(p.after) && Blank(p.bws1) && Blank(p.bws2)
    && Token(p.name)
    && (p.value.Some? ==> ValueForm(p.value.value))
  }

  predicate ParamsForm(params: seq<Param>) {
    forall k :: 0 <= k < |params| ==> ParamForm(params[k])
  }

  predicate LinkForm(l: Link) {
    '<' !in l.url && '>' !in l.url && Blank(l.left) && Blank(l.right) && ParamsForm(l.params)
  }

  predicate LinksForm(links: seq<Link>) {
    forall k :: 0 <= k < |links| ==> LinkForm(links[k])
  }

  function PrintValue(v: ParamValue): string {
    match v
    case Bare(text) => text
    case Quoted(text) => ['"'] + (text + ['"'])
  }

  function PrintKey(p: Param): string {
    p.after + (p.name + p.bws1)
  }

  function PrintBody(p: Param): string {
    match p.value
    case None => PrintKey(p)
    case Some(v) => PrintKey(p) + (['='] + (p.bws2 + PrintValue(v)))
  }

  function PrintParams(params: seq<Param>): string {
    if params == [] then []
    else params[0].before + ([';'] + (PrintBody(params[0]) + PrintParams(params[1..])))
  }

  function PrintHeader(links: seq<Link>): string {
    if links == [] then []
    else Bracketed(links[0].url, PrintParams(links[0].params) + Ending(links) + PrintHeader(links[1..]))
  }

  /** The text between the parameters of the first link and the second link. */
  function Ending(links: seq<Link>): string
    requires links != []
  {
    if |links| == 1 then [] else links[0].left + ([','] + links[0].right)
  }

  /** A `rel` parameter whose list of relation types holds `next`, both in any case. */
  predicate ParamAnnounces(p: Param) {
    EqIgnoreCase(p.name, "rel") && p.value.Some? && ListsNext(p.value.value.text)
  }

  predicate AnyAnnounces(params: seq<Param>) {
    exists k :: 0 <= k < |params| && ParamAnnounces(params[k])
  }

  predicate LinkAnnounces(l: Link) {
    AnyAnnounces(l.params)
  }

  function FirstAnnounced(links: seq<Link>): (url: Option<string>)
    ensures url.None? <==> forall k :: 0 <= k < |links| ==> !LinkAnnounces(links[k])
  {
    if links == [] then None
    else if LinkAnnounces(links[0]) then Some(links[0].url)
    else FirstAnnounced(links[1..])
  }

  // Reading one parameter.

  /** What may follow a parameter before the next `;` or `<`: blanks, and the list comma. */
  ghost predicate EndingForm(e: string, left: string, right: string) {
    Blank(left) && Blank(right) && (e == left || e == left + ([','] + right))
  }

  lemma BlankIsWhitespace(s: string)
    requires Blank(s)
    ensures AllWhitespace(s)
  {
  }

  lemma TokenCharPlain(c: char)
    requires TokenChar(c)
    ensures !IsWhitespace(c) && c != ',' && c != ';' && c != '<' && c != '=' && c != '"'
  {
  }

  lemma TokenPlain(s: string)
    requires Token(s)
    ensures Trimmed(s) && s[|s| - 1] != ','
    ensures ';' !in s && '<' !in s && '=' !in s && '"' !in s
  {
    forall i | 0 <= i < |s| ensures s[i] != ';' && s[i] != '<' && s[i] != '=' && s[i] != '"' {
      TokenCharPlain(s[i]);
    }
    TokenCharPlain(s[0]);
    TokenCharPlain(s[|s| - 1]);
  }

  lemma ValuePlain(v: ParamValue)
    requires ValueForm(v)
    ensures var s := PrintValue(v);
      s != [] && Trimmed(s) && s[|s| - 1] != ',' && ';' !in s && '<' !in s
  {
    if v.Bare? { TokenPlain(v.text); }
  }

  lemma TrimCommaOfBlanks(v: string, left: string)
    requires v != [] && v[|v| - 1] != ',' && Blank(left)
    ensures TrimMatchesEnd((v + left) + [','], ',') == v + left
  {
    var t := v + left;
    var s := t + [','];
    assert s[..|s| - 1] == t;
    assert t[|t| - 1] != ',' by {
      if left == [] { assert t == v; } else { assert t[|t| - 1] == left[|left| - 1]; }
    }
  }

  /** Trimming recovers the printed value from what surrounds it. */
  lemma ValueRecovered(v: string, bws: string, e: string, left: string, right: string)
    requires v != [] && Trimmed(v) && v[|v| - 1] != ','
    requires Blank(bws) && EndingForm(e, left, right)
    ensures Trim(TrimMatchesEnd(Trim(bws + (v + e)), ',')) == v
  {
    BlankIsWhitespace(bws);
    BlankIsWhitespace(left);
    BlankIsWhitespace(right);
    hide Trim, AllWhitespace, Blank, Trimmed, TrimMatchesEnd;
    if e == left {
      TrimOfCore(bws, v, e);
      assert bws + v + e == bws + (v + e);
      NoCommaAtEnd(v);
      TrimOfCore([], v, []);
      assert [] + v + [] == v;
    } else {
      var core := (v + left) + [','];
      CoreTrimmed(v, left);
      TrimOfCore(bws, core, right);
      RegroupEnding(bws, v, left, right);
      TrimCommaOfBlanks(v, left);
      TrimOfCore([], v, left);
      assert [] + v + left == v + left;
    }
  }

  lemma NoCommaAtEnd(v: string)
    requires v != [] && v[|v| - 1] != ','
    ensures TrimMatchesEnd(v, ',') == v
  {
  }

  lemma CoreTrimmed(v: string, left: string)
    requires v != [] && Trimmed(v)
    ensures Trimmed((v + left) + [','])
  {
    var core := (v + left) + [','];
    assert core[0] == v[0] && core[|core| - 1] == ',';
  }

  lemma RegroupEnding(a: string, v: string, left: string, right: string)
    ensures a + (v + (left + ([','] + right))) == a + ((v + left) + [',']) + right
  {
  }

  lemma StripsNothing(s: string, c: char)
    requires s != [] ==> s[0] != c && s[|s| - 1] != c
    ensures TrimMatchesStart(s, c) == s && TrimMatchesEnd(s, c) == s
  {
  }

  lemma UnquoteValue(v: ParamValue)
    requires ValueForm(v)
    ensures Unquote(PrintValue(v)) == v.text
  {
    if v.Bare? {
      TokenPlain(v.text);
      StripsNothing(v.text, '"');
    } else {
      var text := v.text;
      var s := ['"'] + (text + ['"']);
      assert s[1..] == text + ['"'];
      if text == [] {
        assert text + ['"'] == ['"'] && ['"'][1..] == [];
        assert TrimMatchesStart(['"'], '"') == TrimMatchesStart([], '"');
      } else {
        assert (text + ['"'])[0] == text[0];
        assert TrimMatchesStart(s, '"') == text + ['"'];
        assert (text + ['"'])[..|text|] == text;
        StripsNothing(text, '"');
      }
    }
  }

  lemma KeyPlain(p: Param)
    requires ParamForm(p)
    ensures Trim(PrintKey(p)) == p.name
    ensures ';' !in PrintKey(p) && '<' !in PrintKey(p) && '=' !in PrintKey(p)
  {
    BlankIsWhitespace(p.after);
    BlankIsWhitespace(p.bws1);
    TokenPlain(p.name);
    TrimOfCore(p.after, p.name, p.bws1);
    assert p.after + p.name + p.bws1 == PrintKey(p);
  }

  /** The parameter reader agrees with the grammar, whatever blanks and comma follow. */
  lemma NamesNextOfPrinted(p: Param, e: string, left: string, right: string)
    requires ParamForm(p) && EndingForm(e, left, right)
    ensures NamesNext(PrintBody(p) + e) == ParamAnnounces(p)
  {
    KeyPlain(p);
    match p.value {
      case None =>
        CutNone(PrintBody(p) + e, '=');
      case Some(v) =>
        var rest := p.bws2 + (PrintValue(v) + e);
        RegroupBody(PrintKey(p), p.bws2, PrintValue(v), e);
        CutAt(PrintKey(p), '=', ['='] + rest);
        assert (['='] + rest)[1..] == rest;
        ValuePlain(v);
        ValueRecovered(PrintValue(v), p.bws2, e, left, right);
        UnquoteValue(v);
    }
  }

  lemma RegroupBody(key: string, bws: string, v: string, e: string)
    ensures key + (['='] + (bws + v)) + e == key + (['='] + (bws + (v + e)))
  {
  }

  // Reading all parameters of one link.

  lemma BodyPlain(p: Param)
    requires ParamForm(p)
    ensures ';' !in PrintBody(p) && '<' !in PrintBody(p)
  {
    KeyPlain(p);
    if p.value.Some? { ValuePlain(p.value.value); }
  }

  lemma AnyNamesNextCons(head: string, rest: seq<string>)
    ensures AnyNamesNext([head] + rest) <==> NamesNext(head) || AnyNamesNext(rest)
  {
    var all := [head] + rest;
    assert all[0] == head;
    assert forall k :: 0 <= k < |rest| ==> all[k + 1] == rest[k];
  }

  lemma PeelParameter(head: string, rest: string)
    requires ';' !in head
    ensures IsNext(head + ([';'] + rest)) <==> NamesNext(head) || IsNext(rest)
  {
    SplitStep(head, ';', rest);
    AnyNamesNextCons(head, Split(rest, ';'));
  }

  lemma LastParameter(last: string)
    requires ';' !in last
    ensures IsNext(last) <==> NamesNext(last)
  {
    SplitLast(last, ';');
    assert [last][0] == last;
  }

  lemma AnyAnnouncesCons(params: seq<Param>)
    requires params != []
    ensures AnyAnnounces(params) <==> ParamAnnounces(params[0]) || AnyAnnounces(params[1..])
  {
    assert forall k :: 0 < k < |params| ==> params[k] == params[1..][k - 1];
    assert forall k :: 0 <= k < |params| - 1 ==> params[k + 1] == params[1..][k];
  }

  /** One parameter and all that follow are read one `;` at a time. */
  lemma {:induction false} ReadsBodies(p: Param, params: seq<Param>, e: string, left: string, right: string)
    requires ParamForm(p) && ParamsForm(params) && EndingForm(e, left, right)
    ensures IsNext(PrintBody(p) + (PrintParams(params) + e)) <==> ParamAnnounces(p) || AnyAnnounces(params)
    decreases |params|
  {
    hide IsNext, NamesNext, ParamAnnounces, PrintBody;
    BodyPlain(p);
    if params == [] {
      assert PrintParams(params) + e == e;
      LastParameter(PrintBody(p) + e);
      NamesNextOfPrinted(p, e, left, right);
    } else {
      hide AnyAnnounces, PrintParams;
      var q := params[0];
      var rest := PrintBody(q) + (PrintParams(params[1..]) + e);
      RegroupBodies(p, params, e);
      PeelParameter(PrintBody(p) + q.before, rest);
      NamesNextOfPrinted(p, q.before, q.before, []);
      ReadsBodies(q, params[1..], e, left, right);
      AnyAnnouncesCons(params);
    }
  }

  lemma RegroupBodies(p: Param, params: seq<Param>, e: string)
    requires params != []
    ensures PrintBody(p) + (PrintParams(params) + e)
         == (PrintBody(p) + params[0].before) + ([';'] + (PrintBody(params[0]) + (PrintParams(params[1..]) + e)))
  {
    hide PrintBody;
    RegroupParams(PrintBody(p), params[0].before, PrintBody(params[0]), PrintParams(params[1..]), e);
  }

  lemma RegroupParams(a: string, before: string, body: string, more: string, e: string)
    ensures a + ((before + ([';'] + (body + more))) + e) == (a + before) + ([';'] + (body + (more + e)))
  {
  }

  lemma {:induction false} ReadsParams(params: seq<Param>, e: string, left: string, right: string)
    requires ParamsForm(params) && EndingForm(e, left, right)
    ensures IsNext(PrintParams(params) + e) <==> AnyAnnounces(params)
  {
    if params == [] {
      assert PrintParams(params) + e == e;
      LastParameter(e);
      CutNone(e, '=');
    } else {
      var q := params[0];
      var rest := PrintBody(q) + (PrintParams(params[1..]) + e);
      RegroupParams([], q.before, PrintBody(q), PrintParams(params[1..]), e);
      assert [] + (PrintParams(params) + e) == PrintParams(params) + e;
      assert [] + q.before == q.before;
      PeelParameter(q.before, rest);
      CutNone(q.before, '=');
      ReadsBodies(q, params[1..], e, left, right);
      AnyAnnouncesCons(params);
    }
  }

  // Reading the whole header.

  lemma {:induction false} NoBracketInParams(params: seq<Param>)
    requires ParamsForm(params)
    ensures '<' !in PrintParams(params)
  {
    if params != [] {
      BodyPlain(params[0]);
      NoBracketInParams(params[1..]);
    }
  }

  /** The pieces the scanner finds in a printed header. */
  function RawOf(links: seq<Link>): seq<RawLink> {
    if links == [] then []
    else [RawLink(links[0].url, PrintParams(links[0].params) + Ending(links))] + RawOf(links[1..])
  }

  lemma NothingScanned()
    ensures Scan([]) == Scanned([], [])
  {
  }

  lemma {:induction false} ScanOfPrinted(links: seq<Link>)
    requires LinksForm(links)
    ensures Scan(PrintHeader(links)) == Scanned(RawOf(links), [])
  {
    hide Scan;
    if links == [] {
      NothingScanned();
    } else {
      ScanOfPrinted(links[1..]);
      NoBracketInParams(links[0].params);
      var params := PrintParams(links[0].params) + Ending(links);
      assert '<' !in params;
      ScanStep(links[0].url, params, PrintHeader(links[1..]));
    }
  }

  lemma {:induction false} FirstNextOfPrinted(links: seq<Link>)
    requires LinksForm(links)
    ensures FirstNext(RawOf(links)) == FirstAnnounced(links)
  {
    if links != [] {
      FirstNextOfPrinted(links[1..]);
      var l := links[0];
      if |links| == 1 {
        ReadsParams(l.params, [], [], []);
      } else {
        ReadsParams(l.params, Ending(links), l.left, l.right);
      }
      assert RawOf(links)[1..] == RawOf(links[1..]);
    }
  }

  /**
   * Every header printed in RFC 8288 form is read as the first link that has a `rel` parameter whose
   * relation types hold `next`, and as no next page exactly when no link has one.
   */
  lemma ReadsPrintedHeader(links: seq<Link>)
    requires links != [] && LinksForm(links)
    ensures Announced(PrintHeader(links)) == Ok(FirstAnnounced(links))
  {
    ScanOfPrinted(links);
    FirstNextOfPrinted(links);
  }

  // --- one `rel` a link ---------------------------------------------------------

  predicate IsRel(p: Param) {
    EqIgnoreCase(p.name, "rel")
  }

  /** Section 3.3: of several `rel` parameters of a link all but the first must be ignored. */
  predicate FirstRelAnnounces(params: seq<Param>) {
    exists k :: 0 <= k < |params| && ParamAnnounces(params[k]) && forall j :: 0 <= j < k ==> !IsRel(params[j])
  }

  /** The next page as the standard reads the links. */
  function FirstByStandard(links: seq<Link>): Option<string> {
    if links == [] then None
    else if FirstRelAnnounces(links[0].params) then Some(links[0].url)
    else FirstByStandard(links[1..])
  }

  /**
   * The first link with any `rel` listing `next` has it behind a first `rel` that does not, and what the
   * standard finds after that link is not the same page.
   */
  ghost predicate MisreadAt(links: seq<Link>, k: nat)
    requires k < |links|
  {
    && LinkAnnounces(links[k]) && (forall j :: 0 <= j < k ==> !LinkAnnounces(links[j]))
    && !FirstRelAnnounces(links[k].params)
    && FirstByStandard(links[k + 1..]) != Some(links[k].url)
  }

  ghost predicate Misread(links: seq<Link>) {
    exists k :: 0 <= k < |links| && MisreadAt(links, k)
  }

  /** Looking one link further on. */
  lemma MisreadTail(links: seq<Link>)
    requires links != []
    ensures Misread(links) <==> if LinkAnnounces(links[0]) then MisreadAt(links, 0) else Misread(links[1..])
  {
    hide LinkAnnounces, FirstRelAnnounces, FirstByStandard;
    var tail := links[1..];
    forall k | 0 <= k < |tail| ensures tail[k] == links[k + 1] && tail[k + 1..] == links[k + 1 + 1..] {
    }
    if LinkAnnounces(links[0]) {
    } else {
      forall k | 0 <= k < |tail| ensures MisreadAt(links, k + 1) <==> MisreadAt(tail, k) {
        forall j | 0 <= j < k + 1 ensures j > 0 ==> links[j] == tail[j - 1] {
        }
        assert (forall j :: 0 <= j < k + 1 ==> !LinkAnnounces(links[j])) <==>
               (forall j :: 0 <= j < k ==> !LinkAnnounces(tail[j])) by {
          forall j | 0 <= j < k ensures tail[j] == links[j + 1] {
          }
        }
      }
      if k :| 0 <= k < |links| && MisreadAt(links, k) {
        assert MisreadAt(tail, k - 1);
      }
    }
  }

  lemma {:induction false} AgreeUnlessMisread(links: seq<Link>)
    ensures FirstAnnounced(links) == FirstByStandard(links) <==> !Misread(links)
  {
    if links != [] {
      AgreeUnlessMisread(links[1..]);
      MisreadTail(links);
      assert links[0 + 1..] == links[1..];
    }
  }

  /** A printed header is read as the standard says if and only if it is not misread in that way. */
  lemma ReadsAsStandard(links: seq<Link>)
    requires links != [] && LinksForm(links)
    ensures Announced(PrintHeader(links)) == Ok(FirstByStandard(links)) <==> !Misread(links)
  {
    ReadsPrintedHeader(links);
    AgreeUnlessMisread(links);
  }

  /** Headers that give each link at most one `rel`, as the standard has servers write them, are all read so. */
  lemma OneRelIsRead(links: seq<Link>)
    requires links != [] && LinksForm(links)
    requires forall l :: l in links ==> AtMostOneRel(l.params)
    ensures Announced(PrintHeader(links)) == Ok(FirstByStandard(links))
  {
    ReadsAsStandard(links);
    if k :| 0 <= k < |links| && MisreadAt(links, k) {
      var params := links[k].params;
      assert links[k] in links;
      var n :| 0 <= n < |params| && ParamAnnounces(params[n]);
      assert FirstRelAnnounces(params);
    }
  }

  predicate AtMostOneRel(params: seq<Param>) {
    forall i, j :: 0 <= i < j < |params| ==> !(IsRel(params[i]) && IsRel(params[j]))
  }

  function RelIs(relation: string): Param {
    Param([], " ", "rel", [], [], Some(Bare(relation)))
  }

  /** A header that is misread: `<u>; rel=prev; rel=next` has no next page by the standard. */
  lemma SecondRelIsMisread()
    ensures var links := [Link("u", [RelIs("prev"), RelIs("next")], [], [])];
            && LinksForm(links)
            && Announced(PrintHeader(links)) == Ok(Some("u"))
            && FirstByStandard(links) == None
  {
    hide ParamAnnounces, ParamForm, IsRel, PrintHeader, Announced, RelIs, FirstByStandard;
    RelForm("prev");
    RelForm("next");
    RelAnnounces("prev");
    RelAnnounces("next");
    assert !EqIgnoreCase("prev", "next") by {
      assert LowerChar("prev"[0]) != LowerChar("next"[0]);
    }
    LaterRelIsMisread("u", RelIs("prev"), RelIs("next"));
  }

  lemma LaterRelIsMisread(url: string, p: Param, q: Param)
    requires '<' !in url && '>' !in url && ParamForm(p) && ParamForm(q)
    requires IsRel(p) && !ParamAnnounces(p) && ParamAnnounces(q)
    ensures var links := [Link(url, [p, q], [], [])];
            LinksForm(links) && Announced(PrintHeader(links)) == Ok(Some(url)) && FirstByStandard(links) == None
  {
    hide ParamAnnounces, ParamForm, IsRel, PrintHeader, Announced;
    var links := [Link(url, [p, q], [], [])];
    assert links[0].params[0] == p && links[0].params[1] == q && links[1..] == [];
    assert LinkAnnounces(links[0]) && !FirstRelAnnounces(links[0].params);
    ReadsPrintedHeader(links);
  }

  lemma RelForm(relation: string)
    requires Token(relation)
    ensures ParamForm(RelIs(relation)) && IsRel(RelIs(relation))
  {
    assert Token("rel");
  }

  lemma RelAnnounces(relation: string)
    requires IsWord(relation)
    ensures ParamAnnounces(RelIs(relation)) <==> EqIgnoreCase(relation, "next")
  {
    hide ListsNext;
    ListsOneWord(relation);
  }

  /** A list of relation types, separated by single spaces, holds `next` when one of them is `next` in some case. */
  lemma ListsAmongWords(types: seq<string>)
    requires forall k :: 0 <= k < |types| ==> IsWord(types[k])
    ensures ListsNext(Join(types, " ")) <==> exists k :: 0 <= k < |types| && EqIgnoreCase(types[k], "next")
  {
    hide EqIgnoreCase, Words, Join;
    WordsOfJoin(types);
  }

  /** So a quoted `rel` with such a list announces exactly by its relation types, each of them for itself. */
  lemma QuotedTypesAnnounce(types: seq<string>, before: string, after: string, name: string, bws1: string, bws2: string)
    requires forall k :: 0 <= k < |types| ==> IsWord(types[k])
    ensures ParamAnnounces(Param(before, after, name, bws1, bws2, Some(Quoted(Join(types, " "))))) <==>
      EqIgnoreCase(name, "rel") && exists k :: 0 <= k < |types| && EqIgnoreCase(types[k], "next")
  {
    hide EqIgnoreCase, ListsNext, Join;
    ListsAmongWords(types);
  }

  lemma ListsOneWord(word: string)
    requires IsWord(word)
    ensures ListsNext(word) <==> EqIgnoreCase(word, "next")
  {
    hide EqIgnoreCase, ListsNext;
    ListsAmongWords([word]);
    assert Join([word], " ") == word;
  }
}
