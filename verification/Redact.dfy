/** Diagnostics of upstream responses: only what this crate can enumerate survives. */
module Redact {
  import opened Wrappers
  import opened Text
  import opened Json
  import Decimal
  import Sorting

  const MAX_DIAGNOSTIC: nat := 512
  const MAX_CODES: nat := 4
  const MAX_INSPECT: nat := 64 * 1024
  const USIZE: nat := 0x1_0000_0000_0000_0000

  const UNRECOGNIZED: string := "unrecognized"

  const VALIDATION_SUB_CODES: seq<string> :=
    ["already_exists", "custom", "invalid", "missing", "missing_field", "unprocessable"]

  predicate Documented(code: string) {
    code in VALIDATION_SUB_CODES
  }

  function BoundedUpstreamCode(raw: string, known: seq<string>): string {
    if raw in known then raw else UNRECOGNIZED
  }

  // --- reading an envelope ------------------------------------------------------

  /** The member of an object; of repeated keys the last one counts. */
  function Lookup(members: seq<Member>, key: string): Option<Json> {
    if members == [] then None
    else if members[|members| - 1].key == key then Some(members[|members| - 1].value)
    else Lookup(members[..|members| - 1], key)
  }

  function Get(v: Json, key: string): Option<Json> {
    if v.Obj? then Lookup(v.members, key) else None
  }

  function AsText(v: Option<Json>): Option<string> {
    if v.Some? && v.value.Str? then Some(v.value.s) else None
  }

  function AsItems(v: Option<Json>): seq<Json> {
    if v.Some? && v.value.Arr? then v.value.items else []
  }

  /** The text of every entry's `code`, in order. */
  function RawCodes(entries: seq<Json>): seq<string> {
    if entries == [] then []
    else
      var before := RawCodes(entries[..|entries| - 1]);
      match AsText(Get(entries[|entries| - 1], "code"))
      case None => before
      case Some(code) => before + [code]
  }

  function Bounded(codes: seq<string>): (r: seq<string>)
    ensures |r| == |codes|
    ensures forall i :: 0 <= i < |codes| ==> r[i] == BoundedUpstreamCode(codes[i], VALIDATION_SUB_CODES)
  {
    if codes == [] then []
    else Bounded(codes[..|codes| - 1]) + [BoundedUpstreamCode(codes[|codes| - 1], VALIDATION_SUB_CODES)]
  }

  /** Each value once, where it first occurs. */
  function FirstOccurrences(s: seq<string>): (r: seq<string>)
    ensures forall x :: x in r <==> x in s
    ensures forall i, j :: 0 <= i < j < |r| ==> r[i] != r[j]
  {
    if s == [] then []
    else
      var before := FirstOccurrences(s[..|s| - 1]);
      assert s == s[..|s| - 1] + [s[|s| - 1]];
      if s[|s| - 1] in before then before else before + [s[|s| - 1]]
  }

  /** `sort_by_key(|code| code == UNRECOGNIZED)`: false before true. */
  predicate DocumentedFirst(a: string, b: string) {
    a == UNRECOGNIZED ==> b == UNRECOGNIZED
  }

  function Truncate(s: seq<string>, n: nat): seq<string> {
    if |s| <= n then s else s[..n]
  }

  function Kept(seen: seq<string>): seq<string> {
    Truncate(Sorting.Sort(DocumentedFirst, seen), MAX_CODES)
  }

  /** What of an error envelope reaches the diagnostic. */
  function RenderEnvelope(messageBytes: nat, seen: seq<string>): string {
    "message withheld (" + Decimal.Print(messageBytes) + " bytes)"
    + (if Kept(seen) == [] then [] else " codes=[" + Join(Kept(seen), ",") + "]")
  }

  function EnvelopeSummary(v: Json): Option<string> {
    match AsText(Get(v, "message"))
    case None => None
    case Some(message) =>
      Some(RenderEnvelope(ByteLength(message), FirstOccurrences(Bounded(RawCodes(AsItems(Get(v, "errors")))))))
  }

  method CollectCodes(entries: seq<Json>) returns (codes: seq<string>)
    ensures codes == FirstOccurrences(Bounded(RawCodes(entries)))
  {
    codes := [];
    for i := 0 to |entries|
      invariant codes == FirstOccurrences(Bounded(RawCodes(entries[..i])))
    {
      assert entries[..i + 1][..i] == entries[..i];
      var raw := AsText(Get(entries[i], "code"));
      if raw.Some? {
        var code := BoundedUpstreamCode(raw.value, VALIDATION_SUB_CODES);
        BoundedSnoc(RawCodes(entries[..i]), raw.value);
        FirstOccurrencesSnoc(Bounded(RawCodes(entries[..i])), code);
        if code !in codes {
          codes := codes + [code];
        }
      }
    }
    assert entries[..|entries|] == entries;
  }

  method SummariseEnvelope(v: Json) returns (summary: Option<string>)
    ensures summary == EnvelopeSummary(v)
  {
    hide Get, RawCodes, Bounded, FirstOccurrences, Sorting.Sort, Decimal.Print, Text.ByteLength, Text.Join;
    var message := AsText(Get(v, "message"));
    if message.None? {
      return None;
    }
    var codes := CollectCodes(AsItems(Get(v, "errors")));
    codes := Sorting.Sort(DocumentedFirst, codes);
    codes := Truncate(codes, MAX_CODES);
    var text := "message withheld (" + Decimal.Print(ByteLength(message.value)) + " bytes)";
    if codes == [] {
      assert text + [] == text;
    } else {
      text := text + (" codes=[" + Join(codes, ",") + "]");
    }
    summary := Some(text);
  }

  lemma BoundedSnoc(codes: seq<string>, code: string)
    ensures Bounded(codes + [code]) == Bounded(codes) + [BoundedUpstreamCode(code, VALIDATION_SUB_CODES)]
  {
    assert (codes + [code])[..|codes|] == codes;
  }

  lemma FirstOccurrencesSnoc(s: seq<string>, x: string)
    ensures FirstOccurrences(s + [x])
         == if x in FirstOccurrences(s) then FirstOccurrences(s) else FirstOccurrences(s) + [x]
  {
    assert (s + [x])[..|s|] == s;
  }

  // --- which codes are kept -----------------------------------------------------

  function DocumentedOf(s: seq<string>): seq<string> {
    if s == [] then []
    else if s[0] == UNRECOGNIZED then DocumentedOf(s[1..]) else [s[0]] + DocumentedOf(s[1..])
  }

  function PlaceholdersOf(s: seq<string>): seq<string> {
    if s == [] then []
    else if s[0] == UNRECOGNIZED then [s[0]] + PlaceholdersOf(s[1..]) else PlaceholdersOf(s[1..])
  }

  lemma {:induction false} PlaceholderGoesLast(d: seq<string>, p: seq<string>)
    requires UNRECOGNIZED !in d && forall i :: 0 <= i < |p| ==> p[i] == UNRECOGNIZED
    ensures Sorting.Insert(DocumentedFirst, UNRECOGNIZED, d + p) == d + ([UNRECOGNIZED] + p)
  {
    hide Sorting.Insert;
    if d == [] {
      assert d + p == p && d + ([UNRECOGNIZED] + p) == [UNRECOGNIZED] + p;
      Sorting.InsertAtFront(DocumentedFirst, UNRECOGNIZED, p);
    } else {
      assert d[0] in d;
      PlaceholderGoesLast(d[1..], p);
      Sorting.InsertPast(DocumentedFirst, UNRECOGNIZED, d[0], d[1..] + p);
      assert d + p == [d[0]] + (d[1..] + p);
      assert d + ([UNRECOGNIZED] + p) == [d[0]] + (d[1..] + ([UNRECOGNIZED] + p));
    }
  }

  lemma {:induction false} SplitMembers(s: seq<string>)
    ensures forall x :: x in DocumentedOf(s) <==> x in s && x != UNRECOGNIZED
    ensures forall i :: 0 <= i < |PlaceholdersOf(s)| ==> PlaceholdersOf(s)[i] == UNRECOGNIZED
    ensures PlaceholdersOf(s) == [] <==> UNRECOGNIZED !in s
  {
    if s != [] {
      SplitMembers(s[1..]);
      assert s == [s[0]] + s[1..];
    }
  }

  /** The stable sort only moves the placeholder behind: documented codes keep their order. */
  lemma {:induction false} SortMovesPlaceholder(s: seq<string>)
    ensures Sorting.Sort(DocumentedFirst, s) == DocumentedOf(s) + PlaceholdersOf(s)
  {
    if s != [] {
      SortMovesPlaceholder(s[1..]);
      InsertedInPlace(s[0], s[1..]);
    }
  }

  lemma InsertedInPlace(c: string, rest: seq<string>)
    ensures Sorting.Insert(DocumentedFirst, c, DocumentedOf(rest) + PlaceholdersOf(rest))
         == DocumentedOf([c] + rest) + PlaceholdersOf([c] + rest)
  {
    hide Sorting.Insert;
    SplitMembers(rest);
    var d, p := DocumentedOf(rest), PlaceholdersOf(rest);
    assert ([c] + rest)[1..] == rest;
    if c == UNRECOGNIZED {
      PlaceholderGoesLast(d, p);
    } else {
      Sorting.InsertAtFront(DocumentedFirst, c, d + p);
      assert [c] + (d + p) == ([c] + d) + p;
    }
  }

  ghost predicate Distinct(s: seq<string>) {
    forall i, j :: 0 <= i < j < |s| ==> s[i] != s[j]
  }

  lemma {:induction false} OnePlaceholder(s: seq<string>)
    requires Distinct(s)
    ensures |PlaceholdersOf(s)| <= 1
  {
    if s != [] {
      SplitMembers(s[1..]);
      OnePlaceholder(s[1..]);
    }
  }

  lemma {:induction false} DocumentedDistinct(s: seq<string>)
    requires Distinct(s)
    ensures Distinct(DocumentedOf(s))
  {
    if s != [] {
      SplitMembers(s[1..]);
      DocumentedDistinct(s[1..]);
      assert s[0] !in s[1..];
    }
  }

  /** The documented codes first, then at most one placeholder; cut at four. */
  lemma KeptForm(seen: seq<string>)
    requires Distinct(seen)
    ensures var d := DocumentedOf(seen);
      Kept(seen) == if |d| >= MAX_CODES then d[..MAX_CODES]
                    else if UNRECOGNIZED in seen then d + [UNRECOGNIZED] else d
  {
    hide DocumentedOf, PlaceholdersOf, Sorting.Sort, Truncate;
    var d, p := DocumentedOf(seen), PlaceholdersOf(seen);
    SortMovesPlaceholder(seen);
    SplitMembers(seen);
    OnePlaceholder(seen);
    TruncateForm(d, p);
    if UNRECOGNIZED in seen { assert p == [UNRECOGNIZED]; }
  }

  lemma TruncateForm(d: seq<string>, p: seq<string>)
    requires |p| <= 1
    ensures Truncate(d + p, MAX_CODES) == if |d| >= MAX_CODES then d[..MAX_CODES] else if |p| == 1 then d + [p[0]] else d
  {
    if |p| == 1 { assert p == [p[0]]; } else { assert d + p == d; }
    if |d| >= MAX_CODES { assert (d + p)[..MAX_CODES] == d[..MAX_CODES]; }
  }

  /**
   * Of the codes seen, each once: at most four are kept, distinct; the placeholder can only be the
   * last of them; and a documented code is left out only when the four kept ones are the first
   * four documented codes, all seen before it.
   */
  lemma KeptCodes(seen: seq<string>)
    requires Distinct(seen)
    ensures |Kept(seen)| <= MAX_CODES && Distinct(Kept(seen))
    ensures forall x :: x in Kept(seen) ==> x in seen
    ensures forall i :: 0 <= i < |Kept(seen)| && Kept(seen)[i] == UNRECOGNIZED ==> i == |Kept(seen)| - 1
    ensures forall x :: x in seen && x != UNRECOGNIZED && x !in Kept(seen) ==>
      |DocumentedOf(seen)| > MAX_CODES && Kept(seen) == DocumentedOf(seen)[..MAX_CODES]
      && x in DocumentedOf(seen)[MAX_CODES..]
    ensures UNRECOGNIZED in seen && UNRECOGNIZED !in Kept(seen) ==>
      |DocumentedOf(seen)| >= MAX_CODES && Kept(seen) == DocumentedOf(seen)[..MAX_CODES]
  {
    hide Kept, DocumentedOf;
    var d := DocumentedOf(seen);
    KeptForm(seen);
    SplitMembers(seen);
    DocumentedDistinct(seen);
    if |d| >= MAX_CODES {
      assert d == d[..MAX_CODES] + d[MAX_CODES..];
    }
  }

  // --- bounding -----------------------------------------------------------------

  /** The number of whole characters that fit `limit` bytes. */
  function Fits(text: string, limit: nat): (k: nat)
    ensures k <= |text|
    ensures ByteLength(text[..k]) <= limit
    ensures k < |text| ==> ByteLength(text[..k + 1]) > limit
  {
    assert text[..|text|] == text;
    if ByteLength(text) <= limit then |text|
    else
      var init := text[..|text| - 1];
      var k := Fits(init, limit);
      assert init[..k] == text[..k];
      assert k < |init| ==> init[..k + 1] == text[..k + 1];
      k
  }

  function BoundText(text: string, limit: nat): string {
    if ByteLength(text) <= limit then text else text[..Fits(text, limit)] + "\U{2026}"
  }

  /** `is_char_boundary`: the number of characters in the first `n` bytes, when `n` ends one. */
  function CharsAt(text: string, n: nat): (k: Option<nat>)
    ensures k.Some? ==> k.value <= |text| && ByteLength(text[..k.value]) == n
    ensures k.None? ==> forall j :: 0 <= j <= |text| ==> ByteLength(text[..j]) != n
  {
    assert text[..|text|] == text;
    if ByteLength(text) == n then Some(|text|)
    else if text == [] then None
    else
      var init := text[..|text| - 1];
      assert forall j :: 0 <= j <= |init| ==> init[..j] == text[..j];
      CharsAt(init, n)
  }

  lemma {:induction false} PrefixShorter(text: string, j: nat, k: nat)
    requires j < k <= |text|
    ensures ByteLength(text[..j]) < ByteLength(text[..k])
  {
    assert text[..k][..k - 1] == text[..k - 1];
    if j < k - 1 {
      PrefixShorter(text, j, k - 1);
    }
  }

  lemma FitsIs(text: string, limit: nat, k: nat)
    requires k < |text| && ByteLength(text[..k]) <= limit < ByteLength(text[..k + 1])
    ensures Fits(text, limit) == k
  {
    var f := Fits(text, limit);
    if f < k {
      if f + 1 < k { PrefixShorter(text, f + 1, k); }
    } else if f > k {
      if k + 1 < f { PrefixShorter(text, k + 1, f); }
    }
  }

  /** Truncation at the greatest character boundary not above the limit. */
  method Bound(text: string, limit: nat) returns (r: string)
    ensures r == BoundText(text, limit)
  {
    if ByteLength(text) <= limit {
      return text;
    }
    var end := limit;
    while end > 0 && CharsAt(text, end).None?
      invariant end <= limit
      invariant forall j :: 0 <= j <= |text| && ByteLength(text[..j]) <= limit ==> ByteLength(text[..j]) <= end
    {
      end := end - 1;
    }
    assert text[..0] == [] && ByteLength(text[..0]) == 0;
    var k := if end == 0 then 0 else CharsAt(text, end).value;
    assert text[..|text|] == text;
    assert ByteLength(text[..k]) <= limit;
    assert k < |text|;
    PrefixShorter(text, k, k + 1);
    assert ByteLength(text[..k + 1]) > limit;
    FitsIs(text, limit, k);
    r := text[..k] + "\U{2026}";
  }

  // --- the diagnostic -----------------------------------------------------------

  type Bytes = seq<bv8>

  /** `serde_json::from_slice`; any parser, since nothing here depends on which. */
  type Parser = Bytes -> Option<Json>

  function UnrecognisedSummary(bytes: nat, parsed: bool): string {
    (if bytes == 0 then "empty"
     else if bytes > MAX_INSPECT then "oversized"
     else if parsed then "unrecognized json"
     else "non-json")
    + " body (" + Decimal.Print(bytes) + " bytes)"
  }

  function Inspected(body: Bytes, parse: Parser): Option<Json> {
    if |body| <= MAX_INSPECT then parse(body) else None
  }

  function Summary(body: Bytes, parse: Parser): string {
    match Inspected(body, parse)
    case None => UnrecognisedSummary(|body|, false)
    case Some(v) =>
      match EnvelopeSummary(v)
      case Some(summary) => summary
      case None => UnrecognisedSummary(|body|, true)
  }

  function UpstreamDiagnostic(body: Bytes, parse: Parser): string {
    BoundText(Summary(body, parse), MAX_DIAGNOSTIC)
  }

  // What a diagnostic can depend on.

  /** All that a diagnostic may tell of a body. */
  datatype Observation =
    | Envelope(messageBytes: nat, seen: seq<string>)
    | Other(bytes: nat, json: bool)

  function Observe(body: Bytes, parse: Parser): Observation {
    match Inspected(body, parse)
    case None => Other(|body|, false)
    case Some(v) =>
      match AsText(Get(v, "message"))
      case None => Other(|body|, true)
      case Some(message) =>
        Envelope(ByteLength(message), FirstOccurrences(Bounded(RawCodes(AsItems(Get(v, "errors"))))))
  }

  function Render(o: Observation): string {
    match o
    case Envelope(messageBytes, seen) => RenderEnvelope(messageBytes, seen)
    case Other(bytes, json) => UnrecognisedSummary(bytes, json)
  }

  lemma SummaryOfObservation(body: Bytes, parse: Parser)
    ensures Summary(body, parse) == Render(Observe(body, parse))
  {
    hide Get, RenderEnvelope, UnrecognisedSummary, RawCodes, Bounded, FirstOccurrences;
  }

  /** The diagnostic is put together from what may be observed, and from nothing else of the body. */
  method DiagnoseUpstream(body: Bytes, parse: Parser) returns (r: string)
    ensures r == UpstreamDiagnostic(body, parse)
    ensures r == BoundText(Render(Observe(body, parse)), MAX_DIAGNOSTIC)
  {
    hide EnvelopeSummary, UnrecognisedSummary, Render, Observe, BoundText;
    SummaryOfObservation(body, parse);
    var parsed := Inspected(body, parse);
    var summary: Option<string> := None;
    if parsed.Some? {
      summary := SummariseEnvelope(parsed.value);
    }
    var text := if summary.Some? then summary.value else UnrecognisedSummary(|body|, parsed.Some?);
    r := Bound(text, MAX_DIAGNOSTIC);
  }

  /** Two bodies that agree on what may be observed have the same diagnostic, whatever else they hold. */
  lemma DependsOnlyOnObservation(a: Bytes, b: Bytes, parse: Parser)
    requires Observe(a, parse) == Observe(b, parse)
    ensures UpstreamDiagnostic(a, parse) == UpstreamDiagnostic(b, parse)
  {
    hide Summary, Observe, BoundText;
    SummaryOfObservation(a, parse);
    SummaryOfObservation(b, parse);
  }

  /** Two lists of codes with the same documented codes in the same places. */
  ghost predicate SameDocumentedCodes(a: seq<string>, b: seq<string>) {
    |a| == |b| && forall i :: 0 <= i < |a| ==> a[i] == b[i] || (!Documented(a[i]) && !Documented(b[i]))
  }

  /**
   * Two envelopes whose messages have the same size, and whose codes differ only where neither is
   * documented, have the same diagnostic: no other text of theirs is in it.
   */
  lemma NoUpstreamTextSurvives(a: Bytes, b: Bytes, parse: Parser, v: Json, w: Json, m: string, n: string)
    requires |a| <= MAX_INSPECT && |b| <= MAX_INSPECT
    requires parse(a) == Some(v) && parse(b) == Some(w)
    requires AsText(Get(v, "message")) == Some(m) && AsText(Get(w, "message")) == Some(n)
    requires ByteLength(m) == ByteLength(n)
    requires SameDocumentedCodes(RawCodes(AsItems(Get(v, "errors"))), RawCodes(AsItems(Get(w, "errors"))))
    ensures UpstreamDiagnostic(a, parse) == UpstreamDiagnostic(b, parse)
  {
    var p, q := RawCodes(AsItems(Get(v, "errors"))), RawCodes(AsItems(Get(w, "errors")));
    hide Get, RawCodes, AsItems, UpstreamDiagnostic;
    assert Bounded(p) == Bounded(q);
    DependsOnlyOnObservation(a, b, parse);
  }

  // The backstop never binds.

  lemma {:induction false} AtMostFourBytes(s: string)
    ensures ByteLength(s) <= 4 * |s|
  {
    if s != [] { AtMostFourBytes(s[..|s| - 1]); }
  }

  lemma {:induction false} JoinedLength(codes: seq<string>, n: nat)
    requires forall i :: 0 <= i < |codes| ==> |codes[i]| <= n
    ensures |Join(codes, ",")| <= |codes| * (n + 1)
  {
    if |codes| > 1 { JoinedLength(codes[1..], n); }
  }

  lemma SeenCodesAreShort(entries: seq<Json>)
    ensures forall x :: x in FirstOccurrences(Bounded(RawCodes(entries))) ==>
      |x| <= 14 && (Documented(x) || x == UNRECOGNIZED)
  {
    var codes := RawCodes(entries);
    forall x | x in FirstOccurrences(Bounded(codes)) ensures |x| <= 14 && (Documented(x) || x == UNRECOGNIZED) {
      assert x in Bounded(codes);
      var i :| 0 <= i < |codes| && Bounded(codes)[i] == x;
      CodeLengths(x);
    }
  }

  lemma CodeLengths(x: string)
    requires Documented(x) || x == UNRECOGNIZED
    ensures |x| <= 14
  {
    assert x in ["already_exists", "custom", "invalid", "missing", "missing_field", "unprocessable"]
      || x == "unrecognized";
  }

  lemma EnvelopeIsShort(messageBytes: nat, seen: seq<string>)
    requires messageBytes < USIZE
    requires Distinct(seen) && forall x :: x in seen ==> |x| <= 14
    ensures |RenderEnvelope(messageBytes, seen)| <= 114
  {
    Decimal.PrintLength64(messageBytes);
    hide Kept, Decimal.Print;
    var kept := Kept(seen);
    KeptCodes(seen);
    forall i | 0 <= i < |kept| ensures |kept[i]| <= 14 {
      assert kept[i] in kept;
    }
    JoinedLength(kept, 14);
    assert |"message withheld ("| == 18 && |" bytes)"| == 7 && |" codes=["| == 8;
  }

  /** No summary reaches the bound, so a diagnostic is never truncated. */
  lemma BoundNeverBinds(body: Bytes, parse: Parser)
    requires |body| < USIZE
    requires Observe(body, parse).Envelope? ==> Observe(body, parse).messageBytes < USIZE
    ensures ByteLength(Summary(body, parse)) < MAX_DIAGNOSTIC
    ensures UpstreamDiagnostic(body, parse) == Summary(body, parse)
  {
    AtMostFourBytes(Summary(body, parse));
    Decimal.PrintLength64(|body|);
    hide ByteLength, Decimal.Print, RenderEnvelope, Get, RawCodes, Bounded, FirstOccurrences;
    var parsed := Inspected(body, parse);
    if parsed.Some? {
      var message := AsText(Get(parsed.value, "message"));
      if message.Some? {
        var entries := AsItems(Get(parsed.value, "errors"));
        SeenCodesAreShort(entries);
        SeenAreDistinct(Bounded(RawCodes(entries)));
        EnvelopeIsShort(ByteLength(message.value), FirstOccurrences(Bounded(RawCodes(entries))));
      }
    }
  }

  lemma SeenAreDistinct(s: seq<string>)
    ensures Distinct(FirstOccurrences(s))
  {
  }

  // --- the words of a diagnostic ------------------------------------------------

  /** The codes this crate's callers know, as GitHub documents them. */
  predicate Known(code: string) {
    code in {"already_exists", "custom", "invalid", "missing", "missing_field", "unprocessable"}
  }

  /** The known codes, each once, in the order they first occur. */
  function KnownOnce(codes: seq<string>): seq<string> {
    if codes == [] then []
    else
      var before, code := KnownOnce(codes[..|codes| - 1]), codes[|codes| - 1];
      if Known(code) && code !in before then before + [code] else before
  }

  lemma KnownIsDocumented(code: string)
    ensures BoundedUpstreamCode(code, VALIDATION_SUB_CODES) == if Known(code) then code else "unrecognized"
    ensures Known(code) ==> code != "unrecognized"
  {
    assert VALIDATION_SUB_CODES[0] == "already_exists" && VALIDATION_SUB_CODES[1] == "custom";
    assert VALIDATION_SUB_CODES[2] == "invalid" && VALIDATION_SUB_CODES[3] == "missing";
    assert VALIDATION_SUB_CODES[4] == "missing_field" && VALIDATION_SUB_CODES[5] == "unprocessable";
    assert |VALIDATION_SUB_CODES| == 6;
    assert "already_exists"[0] != "unrecognized"[0] && "custom"[0] != "unrecognized"[0];
    assert "invalid"[0] != "unrecognized"[0] && "missing"[0] != "unrecognized"[0];
    assert "missing_field"[0] != "unrecognized"[0] && "unprocessable"[2] != "unrecognized"[2];
  }

  lemma {:induction false} DocumentedOfSnoc(s: seq<string>, x: string)
    ensures DocumentedOf(s + [x]) == if x == UNRECOGNIZED then DocumentedOf(s) else DocumentedOf(s) + [x]
  {
    if s == [] {
      assert [] + [x] == [x] && [x][1..] == [];
    } else {
      assert (s + [x])[1..] == s[1..] + [x];
      DocumentedOfSnoc(s[1..], x);
    }
  }

  ghost predicate AnyUnknown(codes: seq<string>) {
    exists i :: 0 <= i < |codes| && !Known(codes[i])
  }

  lemma AnyUnknownSnoc(init: seq<string>, last: string)
    ensures AnyUnknown(init + [last]) <==> AnyUnknown(init) || !Known(last)
  {
    hide Known;
    var codes := init + [last];
    assert codes[|init|] == last && forall i :: 0 <= i < |init| ==> init[i] == codes[i];
  }

  lemma KnownOnceSnoc(init: seq<string>, last: string)
    ensures KnownOnce(init + [last]) ==
      if Known(last) && last !in KnownOnce(init) then KnownOnce(init) + [last] else KnownOnce(init)
  {
    hide Known;
    assert (init + [last])[..|init|] == init;
  }

  /** One bounded code more, seen or not. */
  lemma SeenSnoc(seen: seq<string>, code: string)
    ensures var longer := if code in seen then seen else seen + [code];
      && DocumentedOf(longer) ==
           (if code == UNRECOGNIZED || code in DocumentedOf(seen) then DocumentedOf(seen) else DocumentedOf(seen) + [code])
      && (UNRECOGNIZED in longer <==> UNRECOGNIZED in seen || code == UNRECOGNIZED)
  {
    hide DocumentedOf;
    SplitMembers(seen);
    DocumentedOfSnoc(seen, code);
  }

  lemma {:induction false} SeenAreKnown(codes: seq<string>)
    ensures DocumentedOf(FirstOccurrences(Bounded(codes))) == KnownOnce(codes)
    ensures UNRECOGNIZED in FirstOccurrences(Bounded(codes)) <==> AnyUnknown(codes)
    decreases |codes|
  {
    if codes != [] {
      var init, last := codes[..|codes| - 1], codes[|codes| - 1];
      SeenAreKnown(init);
      assert codes == init + [last];
      SeenStep(init, last);
    }
  }

  lemma SeenStep(init: seq<string>, last: string)
    requires DocumentedOf(FirstOccurrences(Bounded(init))) == KnownOnce(init)
    requires UNRECOGNIZED in FirstOccurrences(Bounded(init)) <==> AnyUnknown(init)
    ensures DocumentedOf(FirstOccurrences(Bounded(init + [last]))) == KnownOnce(init + [last])
    ensures UNRECOGNIZED in FirstOccurrences(Bounded(init + [last])) <==> AnyUnknown(init + [last])
  {
    hide Known, FirstOccurrences, Bounded, DocumentedOf, BoundedUpstreamCode, KnownOnce, AnyUnknown;
    KnownIsDocumented(last);
    BoundedSnoc(init, last);
    var code := BoundedUpstreamCode(last, VALIDATION_SUB_CODES);
    FirstOccurrencesSnoc(Bounded(init), code);
    SeenSnoc(FirstOccurrences(Bounded(init)), code);
    AnyUnknownSnoc(init, last);
    KnownOnceSnoc(init, last);
  }

  /** Of the codes of an envelope: the first four known ones, or all of them and then one word for any others. */
  lemma CodesExactly(codes: seq<string>)
    ensures var known := KnownOnce(codes);
      Kept(FirstOccurrences(Bounded(codes))) ==
        if |known| >= 4 then known[..4]
        else if AnyUnknown(codes) then known + ["unrecognized"] else known
  {
    hide Kept, KnownOnce, DocumentedOf, AnyUnknown;
    SeenAreKnown(codes);
    KeptForm(FirstOccurrences(Bounded(codes)));
  }

  /** A member of an object is its last one of that name. */
  lemma {:induction false} LookupExactly(members: seq<Member>, key: string, value: Json)
    ensures Lookup(members, key) == Some(value) <==> exists i :: IsLastOf(members, key, value, i)
    ensures Lookup(members, key) == None <==> forall i :: 0 <= i < |members| ==> members[i].key != key
    decreases |members|
  {
    if members != [] {
      var n := |members| - 1;
      LookupExactly(members[..n], key, value);
      if members[n].key == key {
        assert members[n].value == value ==> IsLastOf(members, key, value, n);
      } else {
        forall i | 0 <= i < n ensures IsLastOf(members, key, value, i) <==> IsLastOf(members[..n], key, value, i) {
        }
        forall i ensures IsLastOf(members, key, value, i) ==> i < n {
        }
      }
    }
  }

  predicate IsLastOf(members: seq<Member>, key: string, value: Json, i: int) {
    && 0 <= i < |members| && members[i].key == key && members[i].value == value
    && forall j :: i < j < |members| ==> members[j].key != key
  }

  /** The codes of a list of entries: of each entry that has one as text, in order. */
  lemma CodesOfEntries(entries: seq<Json>, entry: Json)
    ensures RawCodes([]) == []
    ensures RawCodes(entries + [entry]) == RawCodes(entries)
      + if entry.Obj? && Lookup(entry.members, "code").Some? && Lookup(entry.members, "code").value.Str?
        then [Lookup(entry.members, "code").value.s] else []
  {
    assert (entries + [entry])[..|entries|] == entries;
  }

  function CodesShown(codes: seq<string>): string {
    var kept := Kept(FirstOccurrences(Bounded(codes)));
    if kept == [] then [] else " codes=[" + Join(kept, ",") + "]"
  }

  /** The whole diagnostic of a body: its size and class in words, or the size of an envelope's message and its codes. */
  lemma DiagnosticExactly(body: Bytes, parse: Parser)
    requires |body| < USIZE
    requires Observe(body, parse).Envelope? ==> Observe(body, parse).messageBytes < USIZE
    ensures var parsed := if |body| <= 65536 then parse(body) else None;
      var size := Decimal.Print(|body|);
      UpstreamDiagnostic(body, parse) ==
        if parsed.Some? && AsText(Get(parsed.value, "message")).Some? then
          "message withheld (" + Decimal.Print(ByteLength(AsText(Get(parsed.value, "message")).value)) + " bytes)"
          + CodesShown(RawCodes(AsItems(Get(parsed.value, "errors"))))
        else if |body| == 0 then "empty body (" + size + " bytes)"
        else if |body| > 65536 then "oversized body (" + size + " bytes)"
        else if parsed.Some? then "unrecognized json body (" + size + " bytes)"
        else "non-json body (" + size + " bytes)"
  {
    hide Decimal.Print, ByteLength, Get, AsText, AsItems, RawCodes, Kept, Bounded, FirstOccurrences, UnrecognisedSummary,
      UpstreamDiagnostic;
    BoundNeverBinds(body, parse);
    Worded(|body|, true);
    Worded(|body|, false);
  }

  lemma Worded(bytes: nat, parsed: bool)
    ensures UnrecognisedSummary(bytes, parsed) ==
      (if bytes == 0 then "empty body ("
       else if bytes > 65536 then "oversized body ("
       else if parsed then "unrecognized json body ("
       else "non-json body (") + Decimal.Print(bytes) + " bytes)"
  {
    hide Decimal.Print;
    assert "empty" + " body (" == "empty body (" && "oversized" + " body (" == "oversized body (";
    assert "unrecognized json" + " body (" == "unrecognized json body (" && "non-json" + " body (" == "non-json body (";
  }
}
