/** What attempt continuations keep over every run: ownership, order, isolation, and when retaining fails. */
module ContinuationRuns {
  import opened Wrappers
  import opened Text
  import opened Continuations
  import Sorting

  // --- strings fed to the hash and to the AEAD ----------------------------------

  function SegmentText(parts: seq<string>): string {
    if parts == [] then [] else SegmentText(parts[..|parts| - 1]) + (['/'] + parts[|parts| - 1])
  }

  /** The text a scope key is the digest of. */
  method DeriveInput(flow: string, session: string, parts: seq<string>) returns (input: string)
    ensures input == ScopeText(flow, session, parts)
  {
    input := "ghinvite/attempt-continuation/v1/" + flow + "/" + session;
    ghost var prefix := input;
    for i := 0 to |parts|
      invariant input == prefix + SegmentText(parts[..i])
    {
      assert parts[..i + 1][..i] == parts[..i];
      input := input + (['/'] + parts[i]);
    }
    assert parts[..|parts|] == parts;
  }

  function ScopeText(flow: string, session: string, parts: seq<string>): string {
    "ghinvite/attempt-continuation/v1/" + flow + "/" + session + SegmentText(parts)
  }

  predicate NoSlash(s: string) {
    '/' !in s
  }

  ghost predicate AllNoSlash(parts: seq<string>) {
    forall i :: 0 <= i < |parts| ==> NoSlash(parts[i])
  }

  lemma {:induction false} SplitAppended(head: string, parts: seq<string>)
    requires AllNoSlash(parts)
    ensures Split(head + SegmentText(parts), '/') == Split(head, '/') + parts
  {
    hide Split;
    if parts == [] {
      assert SegmentText(parts) == [] && head + [] == head;
      assert Split(head, '/') + parts == Split(head, '/');
    } else {
      var n := |parts| - 1;
      var init := head + SegmentText(parts[..n]);
      SplitAppended(head, parts[..n]);
      SplitSnoc(init, '/', parts[n]);
      assert SegmentText(parts) == SegmentText(parts[..n]) + (['/'] + parts[n]);
      hide SegmentText;
      RegroupSegments(head, SegmentText(parts[..n]), ['/'] + parts[n]);
      RegroupParts(Split(head, '/'), parts);
    }
  }

  lemma RegroupSegments(a: string, b: string, c: string)
    ensures a + (b + c) == (a + b) + c
  {
  }

  lemma RegroupParts(head: seq<string>, parts: seq<string>)
    requires parts != []
    ensures (head + parts[..|parts| - 1]) + [parts[|parts| - 1]] == head + parts
  {
  }

  lemma {:induction false} SplitSnoc(s: string, sep: char, last: string)
    requires sep !in last
    ensures Split(s + ([sep] + last), sep) == Split(s, sep) + [last]
    decreases |s|
  {
    hide Split, Before, From;
    BeforeFrom(s, sep);
    var head, rest := Before(s, sep), From(s, sep);
    if rest == [] {
      assert s == head;
      SplitStep(s, sep, last);
      SplitLast(last, sep);
      SplitLast(s, sep);
    } else {
      var tail := rest[1..];
      assert rest == [sep] + tail;
      SplitSnoc(tail, sep, last);
      SplitStep(head, sep, tail);
      SplitStep(head, sep, tail + ([sep] + last));
      Regroup(head, [sep] + tail, [sep] + last, [sep], tail);
    }
  }

  lemma Regroup(head: string, rest: string, more: string, sep: string, tail: string)
    requires rest == sep + tail
    ensures (head + rest) + more == head + (sep + (tail + more))
  {
  }

  lemma SegmentSnoc(parts: seq<string>, part: string)
    ensures SegmentText(parts + [part]) == SegmentText(parts) + (['/'] + part)
  {
    assert (parts + [part])[..|parts|] == parts;
  }

  lemma ScopeHead(flow: string, session: string)
    ensures "ghinvite/attempt-continuation/v1/" + flow + "/" + session
         == "ghinvite" + SegmentText(["attempt-continuation", "v1", flow, session])
  {
    SegmentSnoc([], "attempt-continuation");
    SegmentSnoc(["attempt-continuation"], "v1");
    SegmentSnoc(["attempt-continuation", "v1"], flow);
    SegmentSnoc(["attempt-continuation", "v1", flow], session);
    hide SegmentText;
    assert [] + ["attempt-continuation"] == ["attempt-continuation"];
    assert ["attempt-continuation"] + ["v1"] == ["attempt-continuation", "v1"];
    assert ["attempt-continuation", "v1"] + [flow] == ["attempt-continuation", "v1", flow];
    assert ["attempt-continuation", "v1", flow] + [session] == ["attempt-continuation", "v1", flow, session];
    NoSegments();
    HeadText(flow, session);
  }

  lemma NoSegments()
    ensures SegmentText([]) == []
  {
  }

  lemma HeadText(flow: string, session: string)
    ensures "ghinvite/attempt-continuation/v1/" + flow + "/" + session
         == "ghinvite" + ((([] + (['/'] + "attempt-continuation")) + (['/'] + "v1")) + (['/'] + flow) + (['/'] + session))
  {
    FixedHead();
    RegroupHead("ghinvite", "/attempt-continuation", "/v1", flow, session);
  }

  lemma FixedHead()
    ensures ['/'] + "attempt-continuation" == "/attempt-continuation" && ['/'] + "v1" == "/v1"
    ensures "ghinvite/attempt-continuation/v1/" == (("ghinvite" + "/attempt-continuation") + "/v1") + ['/']
  {
    FixedStart();
    assert "ghinvite/attempt-continuation" + "/v1" == "ghinvite/attempt-continuation/v1";
    assert "ghinvite/attempt-continuation/v1" + ['/'] == "ghinvite/attempt-continuation/v1/";
  }

  lemma FixedStart()
    ensures ['/'] + "attempt-continuation" == "/attempt-continuation" && ['/'] + "v1" == "/v1"
    ensures "ghinvite" + "/attempt-continuation" == "ghinvite/attempt-continuation"
  {
  }

  lemma RegroupHead(g: string, a: string, v: string, flow: string, session: string)
    ensures (((g + a) + v) + ['/']) + flow + "/" + session
         == g + ((([] + a) + v) + (['/'] + flow) + (['/'] + session))
  {
  }

  /** The scope text as parts: fixed prefix, flow, session, subject. */
  lemma ScopeTextSplits(flow: string, session: string, parts: seq<string>)
    requires NoSlash(flow) && NoSlash(session) && AllNoSlash(parts)
    ensures Split(ScopeText(flow, session, parts), '/')
         == ["ghinvite", "attempt-continuation", "v1", flow, session] + parts
  {
    hide SegmentText, Split;
    var all := ["attempt-continuation", "v1", flow, session];
    var head := "ghinvite/attempt-continuation/v1/" + flow + "/" + session;
    ScopeHead(flow, session);
    SplitAppended("ghinvite", all);
    SplitLast("ghinvite", '/');
    SplitAppended(head, parts);
    assert ["ghinvite"] + all == ["ghinvite", "attempt-continuation", "v1", flow, session];
  }

  /** Different flows, sessions or subjects never feed the hash the same text. */
  lemma ScopeTextIdentifies(flow: string, session: string, parts: seq<string>,
                            flow': string, session': string, parts': seq<string>)
    requires NoSlash(flow) && NoSlash(session) && AllNoSlash(parts)
    requires NoSlash(flow') && NoSlash(session') && AllNoSlash(parts')
    requires ScopeText(flow, session, parts) == ScopeText(flow', session', parts')
    ensures flow == flow' && session == session' && parts == parts'
  {
    ScopeTextSplits(flow, session, parts);
    ScopeTextSplits(flow', session', parts');
    var a := ["ghinvite", "attempt-continuation", "v1", flow, session] + parts;
    var b := ["ghinvite", "attempt-continuation", "v1", flow', session'] + parts';
    assert a == b && a[3] == flow && b[3] == flow' && a[4] == session && b[4] == session';
    assert a[5..] == parts && b[5..] == parts';
  }

  /** The associated data names one scope and one identity, even when the identity holds slashes. */
  lemma AadIdentifies(key: string, id: string, key': string, id': string)
    requires NoSlash(key) && NoSlash(key')
    requires Aad(key, id) == Aad(key', id')
    ensures key == key' && id == id'
  {
    var prefix := "ghinvite/attempt-continuation/v1/";
    assert Aad(key, id)[|prefix|..] == key + (['/'] + id);
    assert Aad(key', id')[|prefix|..] == key' + (['/'] + id');
    CutAt(key, '/', ['/'] + id);
    CutAt(key', '/', ['/'] + id');
    assert (['/'] + id)[1..] == id && (['/'] + id')[1..] == id';
  }

  /** A sealed payload moved to another row or scope, or sealed under another secret, does not open. */
  lemma OpensOnlyWhereSealed(secret: nat, nonce: nat, key: string, id: string, payload: Payload,
                             other: nat, key': string, stored: Row)
    requires NoSlash(key) && NoSlash(key')
    requires stored.payload == Seal(secret, nonce, key, id, payload)
    ensures Open(other, key', stored)
         == if other == secret && key' == key && stored.id == id then Ok(payload) else Err(Unavailable)
  {
    if Aad(key', stored.id) == Aad(key, id) {
      AadIdentifies(key, id, key', stored.id);
    }
  }

  // --- runs ---------------------------------------------------------------------

  /** A row the facade wrote: sealed for the scope and identity it is stored under. */
  predicate WellSealed(secret: nat, r: Row) {
    r.payload.secret == secret && r.payload.aad == Aad(r.scope, r.id)
  }

  ghost predicate Good(secret: nat, rows: seq<Row>) {
    Unique(rows) && forall r :: r in rows ==> WellSealed(secret, r)
  }

  /** Statements of facade calls: whatever is inserted was sealed for its place. */
  ghost predicate Facade(secret: nat, statements: seq<Statement>) {
    forall i :: 0 <= i < |statements| && statements[i].Inserting? ==> WellSealed(secret, statements[i].row)
  }

  lemma CleanupMembers(rows: seq<Row>, now: int, r: Row)
    ensures r in Cleanup(rows, now) ==> r in rows
    ensures r in rows && Live(r, now) ==> r in Cleanup(rows, now)
  {
    FilterMembers(rows, Outside(Victims(rows, now)), r);
    if r in Victims(rows, now) {
      VictimsExpired(rows, now, r);
    }
  }

  lemma VictimsExpired(rows: seq<Row>, now: int, r: Row)
    requires r in Victims(rows, now)
    ensures r in rows && !Live(r, now)
  {
    var sorted := Sorting.Sort(Earlier, Expired(rows, now));
    assert r in sorted;
    Sorting.SortMembers(Earlier, Expired(rows, now));
    FilterMembers(rows, HasExpired(now), r);
  }

  lemma InsertGood(secret: nat, rows: seq<Row>, row: Row)
    requires Good(secret, rows) && WellSealed(secret, row)
    ensures Good(secret, InsertRow(rows, row))
  {
  }

  lemma StepKeepsGood(secret: nat, rows: seq<Row>, s: Statement)
    requires Good(secret, rows) && (s.Inserting? ==> WellSealed(secret, s.row))
    ensures Good(secret, Step(rows, s))
  {
    match s {
      case CleaningUp(now) =>
        FilterUnique(rows, Outside(Victims(rows, now)));
        forall r | r in Cleanup(rows, now) ensures WellSealed(secret, r) {
          CleanupMembers(rows, now, r);
        }
      case Inserting(row) =>
        InsertGood(secret, rows, row);
      case Releasing(scope, id) =>
        FilterUnique(rows, NotNamed(scope, id));
        forall r | r in ReleaseRow(rows, scope, id) ensures WellSealed(secret, r) {
          FilterMembers(rows, NotNamed(scope, id), r);
        }
    }
  }

  lemma {:induction false} RunKeepsGood(secret: nat, rows: seq<Row>, statements: seq<Statement>)
    requires Good(secret, rows) && Facade(secret, statements)
    ensures Good(secret, Run(rows, statements))
    decreases |statements|
  {
    if statements != [] {
      var n := |statements| - 1;
      RunKeepsGood(secret, rows, statements[..n]);
      StepKeepsGood(secret, Run(rows, statements[..n]), statements[n]);
    }
  }

  /** However the statements of any number of calls interleave, keys stay unique and every row opens where it is. */
  lemma RunsAreGood(secret: nat, statements: seq<Statement>)
    requires Facade(secret, statements)
    ensures Good(secret, Run([], statements))
  {
    RunKeepsGood(secret, [], statements);
  }

  lemma {:induction false} RunConcat(rows: seq<Row>, a: seq<Statement>, b: seq<Statement>)
    ensures Run(rows, a + b) == Run(Run(rows, a), b)
    decreases |b|
  {
    hide Step;
    if b == [] {
      assert a + b == a;
    } else {
      var n := |b| - 1;
      RunConcat(rows, a, b[..n]);
      assert (a + b)[..|a + b| - 1] == a + b[..n];
    }
  }

  /** An interrupted retain is itself a run of statements, so runs of statements are all there is to consider. */
  lemma RetainIsRun(secret: nat, rows: seq<Row>, c: RetainCall)
    ensures AtReadBack(secret, rows, c)
         == Run(rows, [CleaningUp(c.now)] + c.first + [Inserting(RowOf(secret, c))] + c.second)
  {
    var clean, insert := [CleaningUp(c.now)], [Inserting(RowOf(secret, c))];
    assert clean[..0] == [] && insert[..0] == [];
    assert Run(rows, clean) == Cleanup(rows, c.now);
    RunConcat(rows, clean, c.first);
    RunConcat(rows, clean + c.first, insert);
    RunConcat(rows, clean + c.first + insert, c.second);
  }

  lemma RetainKeepsGood(secret: nat, rows: seq<Row>, c: RetainCall)
    requires Good(secret, rows) && Facade(secret, c.first) && Facade(secret, c.second)
    ensures Good(secret, AtInsert(rows, c)) && Good(secret, AtReadBack(secret, rows, c))
  {
    StepKeepsGood(secret, rows, CleaningUp(c.now));
    RunKeepsGood(secret, Cleanup(rows, c.now), c.first);
    InsertGood(secret, AtInsert(rows, c), RowOf(secret, c));
    RunKeepsGood(secret, InsertRow(AtInsert(rows, c), RowOf(secret, c)), c.second);
  }

  // --- reading ------------------------------------------------------------------

  lemma GetFinds(rows: seq<Row>, r: Row, now: int)
    requires Unique(rows) && r in rows && Live(r, now)
    ensures GetRow(rows, r.scope, r.id, now) == Some(r)
  {
    var own := Filter(rows, OwnRow(r.scope, r.id, now));
    FilterMembers(rows, OwnRow(r.scope, r.id, now), r);
    FilterMembers(rows, OwnRow(r.scope, r.id, now), own[0]);
    UniqueMembers(rows, own[0], r);
  }

  lemma BindingFound(rows: seq<Row>, scope: string, binding: string, id: string, now: int)
    ensures ByBinding(rows, scope, binding, id, now).Some? ==>
      var r := ByBinding(rows, scope, binding, id, now).value;
      r in rows && r.scope == scope && (r.id == id || r.binding == binding) && Live(r, now)
    ensures ByBinding(rows, scope, binding, id, now).None? ==>
      forall r :: r in rows && r.scope == scope && (r.id == id || r.binding == binding) ==> !Live(r, now)
  {
    GetFound(rows, scope, id, now);
    var held := Filter(rows, BoundRow(scope, binding, now));
    if held != [] { FilterMembers(rows, BoundRow(scope, binding, now), held[0]); }
    forall r | r in rows && r.scope == scope && r.binding == binding && Live(r, now) ensures r in held {
      FilterMembers(rows, BoundRow(scope, binding, now), r);
    }
  }

  lemma {:induction false} OpensAll(secret: nat, key: string, stored: seq<Row>)
    requires forall r :: r in stored ==> WellSealed(secret, r) && r.scope == key
    ensures OpenAll(secret, key, stored) == Ok(Messages(stored))
  {
    if stored != [] {
      assert stored[0] in stored;
      assert forall r :: r in stored[1..] ==> r in stored;
      OpensAll(secret, key, stored[1..]);
    }
  }

  function Messages(stored: seq<Row>): (ps: seq<Payload>)
    ensures |ps| == |stored|
    ensures forall i :: 0 <= i < |stored| ==> ps[i] == stored[i].payload.message
  {
    if stored == [] then [] else [stored[0].payload.message] + Messages(stored[1..])
  }

  /** Reading never fails on rows the facade wrote: a list is the live messages, oldest first. */
  lemma ReadsNeverFail(secret: nat, rows: seq<Row>, scope: Scope, id: string, now: int)
    requires Good(secret, rows)
    ensures ListOutcome(secret, rows, scope, now) == Ok(Messages(ListRows(rows, scope.key, now)))
    ensures LoadOutcome(secret, rows, scope, id, now).Ok?
    ensures LatestOutcome(secret, rows, scope, now).Ok?
  {
    var stored := ListRows(rows, scope.key, now);
    forall r | r in stored ensures WellSealed(secret, r) && r.scope == scope.key {
      FilterMembers(rows, LiveIn(scope.key, now), r);
    }
    OpensAll(secret, scope.key, stored);
    GetFound(rows, scope.key, id, now);
  }

  /** A load gives a payload exactly when the identity's live row holds it, and nothing exactly when there is none. */
  lemma LoadFinds(secret: nat, rows: seq<Row>, scope: Scope, id: string, now: int, payload: Payload)
    requires Good(secret, rows)
    ensures LoadOutcome(secret, rows, scope, id, now) == Ok(Some(payload)) <==>
      exists r :: r in rows && IsLive(r, scope.key, id, now) && r.payload.message == payload
    ensures LoadOutcome(secret, rows, scope, id, now) == Ok(None) <==>
      !exists r :: r in rows && IsLive(r, scope.key, id, now)
  {
    GetFound(rows, scope.key, id, now);
    forall r | r in rows && IsLive(r, scope.key, id, now)
      ensures LoadOutcome(secret, rows, scope, id, now) == Ok(Some(r.payload.message))
    {
      GetFinds(rows, r, now);
    }
    if LoadOutcome(secret, rows, scope, id, now) == Ok(Some(payload)) {
      assert IsLive(GetRow(rows, scope.key, id, now).value, scope.key, id, now);
    }
  }

  // --- what a retained row keeps ------------------------------------------------

  /** No statement releases the row, and no cleanup comes after its expiry. */
  ghost predicate Undisturbed(statements: seq<Statement>, r: Row) {
    forall i :: 0 <= i < |statements| ==> Spares(statements[i], r)
  }

  predicate Spares(s: Statement, r: Row) {
    match s
    case CleaningUp(now) => Live(r, now)
    case Inserting(_) => true
    case Releasing(scope, id) => !(scope == r.scope && id == r.id)
  }

  lemma StepKeepsRow(rows: seq<Row>, s: Statement, r: Row)
    requires r in rows && Spares(s, r)
    ensures r in Step(rows, s)
  {
    match s {
      case CleaningUp(now) => CleanupMembers(rows, now, r);
      case Inserting(_) =>
      case Releasing(scope, id) => FilterMembers(rows, NotNamed(scope, id), r);
    }
  }

  /** An undisturbed row stays, unchanged, through any interleaving of any scopes. */
  lemma {:induction false} RunKeepsRow(rows: seq<Row>, statements: seq<Statement>, r: Row)
    requires r in rows && Undisturbed(statements, r)
    ensures r in Run(rows, statements)
    decreases |statements|
  {
    if statements != [] {
      var n := |statements| - 1;
      RunKeepsRow(rows, statements[..n], r);
      StepKeepsRow(Run(rows, statements[..n]), statements[n], r);
    }
  }

  /** Nothing done in the course of the call disturbs the row. */
  ghost predicate Spared(c: RetainCall, r: Row) {
    Live(r, c.now) && Undisturbed(c.first, r) && Undisturbed(c.second, r)
  }

  lemma RetainKeepsRow(secret: nat, rows: seq<Row>, c: RetainCall, r: Row)
    requires r in rows && Spared(c, r)
    ensures r in AtInsert(rows, c) && r in AtReadBack(secret, rows, c)
  {
    CleanupMembers(rows, c.now, r);
    RunKeepsRow(Cleanup(rows, c.now), c.first, r);
    RunKeepsRow(InsertRow(AtInsert(rows, c), RowOf(secret, c)), c.second, r);
  }

  /** `Retained` means exactly that, when it is read back, the identity's live row holds this very payload. */
  lemma RetainedMeansStored(secret: nat, rows: seq<Row>, c: RetainCall)
    requires Good(secret, rows) && Facade(secret, c.first) && Facade(secret, c.second)
    ensures RetainOutcome(secret, rows, c) == Ok(Retained) <==>
      exists r :: r in AtReadBack(secret, rows, c) && Holds(r, c)
  {
    var after := AtReadBack(secret, rows, c);
    RetainKeepsGood(secret, rows, c);
    BindingFound(after, c.scope.key, RowOf(secret, c).binding, c.id, c.now);
    forall r | r in after && Holds(r, c) ensures RetainOutcome(secret, rows, c) == Ok(Retained) {
      GetFinds(after, r, c.now);
    }
    if RetainOutcome(secret, rows, c) == Ok(Retained) {
      assert Holds(ByBinding(after, c.scope.key, RowOf(secret, c).binding, c.id, c.now).value, c);
    }
  }

  predicate Holds(r: Row, c: RetainCall) {
    IsLive(r, c.scope.key, c.id, c.now) && r.payload.message == c.payload
  }

  /**
   * A live row that is there at the read-back decides the outcome: for its own identity whatever was
   * submitted, and for another identity under its binding unless that identity has a live row too.
   */
  lemma LiveRowDecides(secret: nat, rows: seq<Row>, c: RetainCall, r: Row)
    requires Good(secret, rows) && Facade(secret, c.first) && Facade(secret, c.second)
    requires r in AtReadBack(secret, rows, c) && Live(r, c.now) && r.scope == c.scope.key
    ensures c.id == r.id ==>
      RetainOutcome(secret, rows, c) == Ok(if c.payload == r.payload.message then Retained else Conflict(r.payload.message))
    ensures c.id != r.id && RowOf(secret, c).binding == r.binding
            && !(exists x :: x in AtReadBack(secret, rows, c) && IsLive(x, c.scope.key, c.id, c.now)) ==>
      RetainOutcome(secret, rows, c) == Ok(Bound(r.payload.message))
  {
    var after := AtReadBack(secret, rows, c);
    RetainKeepsGood(secret, rows, c);
    if c.id == r.id {
      GetFinds(after, r, c.now);
    } else if RowOf(secret, c).binding == r.binding {
      GetFound(after, c.scope.key, c.id, c.now);
      HolderFound(after, r, c.now);
      if GetRow(after, c.scope.key, c.id, c.now).Some? {
        assert IsLive(GetRow(after, c.scope.key, c.id, c.now).value, c.scope.key, c.id, c.now);
      }
    }
  }

  lemma HolderFound(rows: seq<Row>, r: Row, now: int)
    requires Unique(rows) && r in rows && Live(r, now)
    ensures First(Filter(rows, BoundRow(r.scope, r.binding, now))) == Some(r)
  {
    var held := Filter(rows, BoundRow(r.scope, r.binding, now));
    FilterMembers(rows, BoundRow(r.scope, r.binding, now), r);
    FilterMembers(rows, BoundRow(r.scope, r.binding, now), held[0]);
    UniqueMembers(rows, held[0], r);
  }

  /**
   * Once retain has answered `Retained`, a row holds the payload, and through any interleaving that neither
   * releases it nor cleans up after its expiry: every load gives that payload, the list holds it, no other
   * row of the scope has its binding, and every other retain under the identity, itself interrupted at
   * will, is retained with the same payload and conflicts with any other.
   */
  lemma RetainedIsKept(secret: nat, before: seq<Row>, c: RetainCall, statements: seq<Statement>, later: Scope, at: int)
    returns (r: Row)
    requires Good(secret, before) && Facade(secret, c.first) && Facade(secret, c.second) && Facade(secret, statements)
    requires RetainOutcome(secret, before, c) == Ok(Retained)
    requires later.key == c.scope.key
    ensures r in AtReadBack(secret, before, c) && Holds(r, c)
    ensures Undisturbed(statements, r) && Live(r, at) ==>
      var rows := Run(AtReadBack(secret, before, c), statements);
      && r in rows
      && LoadOutcome(secret, rows, later, c.id, at) == Ok(Some(c.payload))
      && (forall x :: x in rows && x.scope == r.scope && x.binding == r.binding ==> x == r)
      && ListOutcome(secret, rows, later, at).Ok? && c.payload in ListOutcome(secret, rows, later, at).value
      && (forall d: RetainCall ::
            d.scope.key == r.scope && d.id == r.id && Spared(d, r) && Facade(secret, d.first) && Facade(secret, d.second) ==>
              RetainOutcome(secret, rows, d) == Ok(if d.payload == c.payload then Retained else Conflict(c.payload)))
  {
    RetainedMeansStored(secret, before, c);
    r :| r in AtReadBack(secret, before, c) && Holds(r, c);
    RetainKeepsGood(secret, before, c);
    var start := AtReadBack(secret, before, c);
    if Undisturbed(statements, r) && Live(r, at) {
      var rows := Run(start, statements);
      RunKeepsRow(start, statements, r);
      RunKeepsGood(secret, start, statements);
      GetFinds(rows, r, at);
      forall d: RetainCall | d.scope.key == r.scope && d.id == r.id && Spared(d, r)
                             && Facade(secret, d.first) && Facade(secret, d.second)
        ensures RetainOutcome(secret, rows, d) == Ok(if d.payload == c.payload then Retained else Conflict(c.payload))
      {
        RetainKeepsRow(secret, rows, d, r);
        LiveRowDecides(secret, rows, d, r);
      }
      forall x | x in rows && x.scope == r.scope && x.binding == r.binding ensures x == r {
        UniqueMembers(rows, x, r);
      }
      ListedMessage(secret, rows, later, r, at);
    }
  }

  lemma ListedMessage(secret: nat, rows: seq<Row>, scope: Scope, r: Row, at: int)
    requires Good(secret, rows) && r in rows && Live(r, at) && scope.key == r.scope
    ensures ListOutcome(secret, rows, scope, at).Ok?
    ensures r.payload.message in ListOutcome(secret, rows, scope, at).value
  {
    ReadsNeverFail(secret, rows, scope, r.id, at);
    FilterMembers(rows, LiveIn(scope.key, at), r);
    var stored := ListRows(rows, scope.key, at);
    var i :| 0 <= i < |stored| && stored[i] == r;
    assert Messages(stored)[i] == r.payload.message;
  }

  // --- order --------------------------------------------------------------------

  lemma StepKeepsOrder(rows: seq<Row>, s: Statement, a: Row, b: Row)
    requires Precedes(rows, a, b) && Spares(s, a) && Spares(s, b)
    ensures Precedes(Step(rows, s), a, b)
  {
    match s {
      case CleaningUp(now) =>
        var keep := Outside(Victims(rows, now));
        assert keep(a) by { if a in Victims(rows, now) { VictimsExpired(rows, now, a); } }
        assert keep(b) by { if b in Victims(rows, now) { VictimsExpired(rows, now, b); } }
        FilterKeepsOrder(rows, keep, a, b);
      case Inserting(row) =>
        var i, j :| 0 <= i < j < |rows| && rows[i] == a && rows[j] == b;
        assert InsertRow(rows, row)[i] == a && InsertRow(rows, row)[j] == b;
      case Releasing(scope, id) =>
        FilterKeepsOrder(rows, NotNamed(scope, id), a, b);
    }
  }

  lemma {:induction false} RunKeepsOrder(rows: seq<Row>, statements: seq<Statement>, a: Row, b: Row)
    requires Precedes(rows, a, b) && Undisturbed(statements, a) && Undisturbed(statements, b)
    ensures Precedes(Run(rows, statements), a, b)
    decreases |statements|
  {
    if statements != [] {
      var n := |statements| - 1;
      RunKeepsOrder(rows, statements[..n], a, b);
      StepKeepsOrder(Run(rows, statements[..n]), statements[n], a, b);
    }
  }

  /** Listing keeps first-retention order: what was retained earlier is listed earlier, whatever ran since. */
  lemma ListsInRetentionOrder(secret: nat, rows: seq<Row>, statements: seq<Statement>, a: Row, b: Row,
                              scope: Scope, at: int)
    requires Good(secret, rows) && Facade(secret, statements)
    requires Precedes(rows, a, b) && Undisturbed(statements, a) && Undisturbed(statements, b)
    requires a.scope == scope.key == b.scope && Live(a, at) && Live(b, at)
    ensures ListOutcome(secret, Run(rows, statements), scope, at).Ok?
    ensures var ps := ListOutcome(secret, Run(rows, statements), scope, at).value;
      exists i, j :: 0 <= i < j < |ps| && ps[i] == a.payload.message && ps[j] == b.payload.message
  {
    var later := Run(rows, statements);
    RunKeepsGood(secret, rows, statements);
    RunKeepsOrder(rows, statements, a, b);
    ReadsNeverFail(secret, later, scope, a.id, at);
    FilterKeepsOrder(later, LiveIn(scope.key, at), a, b);
    var stored := ListRows(later, scope.key, at);
    var i, j :| 0 <= i < j < |stored| && stored[i] == a && stored[j] == b;
    assert Messages(stored)[i] == a.payload.message && Messages(stored)[j] == b.payload.message;
  }

  /** A row that is inserted is the scope's latest. */
  lemma InsertedIsLatest(secret: nat, rows: seq<Row>, row: Row, scope: Scope, now: int)
    requires Good(secret, rows) && WellSealed(secret, row) && row.scope == scope.key
    requires !HasClash(rows, row) && Live(row, now)
    ensures LatestOutcome(secret, Step(rows, Inserting(row)), scope, now) == Ok(Some(row.payload.message))
  {
    var after := Step(rows, Inserting(row));
    StepKeepsGood(secret, rows, Inserting(row));
    ReadsNeverFail(secret, after, scope, row.id, now);
    FilterConcat(rows, [row], LiveIn(scope.key, now));
    assert [row][0] == row && [row][1..] == [];
    assert Filter([row], LiveIn(scope.key, now)) == [row];
    var stored := ListRows(after, scope.key, now);
    assert stored[|stored| - 1] == row;
    assert Messages(stored)[|stored| - 1] == row.payload.message;
  }

  // --- isolation ----------------------------------------------------------------

  /** The statement is about another scope: a cleanup, of rows expired by `at`, is about every one. */
  predicate Elsewhere(s: Statement, scope: string, at: int) {
    match s
    case CleaningUp(now) => now <= at
    case Inserting(row) => row.scope != scope
    case Releasing(other, _) => other != scope
  }

  /** What happens in other scopes does not change what this scope lists. */
  lemma {:induction false} ScopesAreIsolated(rows: seq<Row>, statements: seq<Statement>, scope: string, at: int)
    requires forall i :: 0 <= i < |statements| ==> Elsewhere(statements[i], scope, at)
    ensures ListRows(Run(rows, statements), scope, at) == ListRows(rows, scope, at)
    decreases |statements|
  {
    if statements != [] {
      var n := |statements| - 1;
      ScopesAreIsolated(rows, statements[..n], scope, at);
      StepIsIsolated(Run(rows, statements[..n]), statements[n], scope, at);
    }
  }

  lemma StepIsIsolated(rows: seq<Row>, s: Statement, scope: string, at: int)
    requires Elsewhere(s, scope, at)
    ensures ListRows(Step(rows, s), scope, at) == ListRows(rows, scope, at)
  {
    var mine := LiveIn(scope, at);
    match s {
      case CleaningUp(now) =>
        var keep := Outside(Victims(rows, now));
        forall x | x in rows ensures mine(x) <==> keep(x) && mine(x) {
          if x in Victims(rows, now) { VictimsExpired(rows, now, x); }
        }
        FilterAgain(rows, keep, mine, mine);
      case Inserting(row) =>
        FilterConcat(rows, [row], mine);
        assert [row][0] == row && [row][1..] == [];
        assert Filter([row], mine) == [];
      case Releasing(other, id) =>
        FilterAgain(rows, NotNamed(other, id), mine, mine);
    }
  }

  // --- what cleanup and listing do, over the rows' own fields ----------------------

  lemma UniqueNoRepeats(rows: seq<Row>)
    requires Unique(rows)
    ensures Sorting.NoRepeats(rows)
  {
    forall i, j | 0 <= i < j < |rows| ensures rows[i] != rows[j] {
      assert !Clash(rows[i], rows[j]);
    }
  }

  lemma {:induction false} FilterNoRepeats(rows: seq<Row>, keep: Row -> bool)
    requires Sorting.NoRepeats(rows)
    ensures Sorting.NoRepeats(Filter(rows, keep))
  {
    if rows != [] {
      FilterNoRepeats(rows[1..], keep);
      var tail := Filter(rows[1..], keep);
      forall j | 0 <= j < |tail| ensures tail[j] != rows[0] {
        FilterMembers(rows[1..], keep, tail[j]);
        var k :| 0 <= k < |rows[1..]| && rows[1..][k] == tail[j];
        assert rows[k + 1] == tail[j];
      }
    }
  }

  /** One cleanup removes expired rows only, those longest expired first, and a hundred of them or all there are. */
  lemma CleanupExactly(rows: seq<Row>, now: int)
    requires Unique(rows)
    ensures forall r :: r in Cleanup(rows, now) ==> r in rows
    ensures forall r :: r in rows && r !in Cleanup(rows, now) ==> r.expiresAt <= now
    ensures forall r, x :: r in rows && r !in Cleanup(rows, now) && x in Cleanup(rows, now) && x.expiresAt <= now ==>
      r.expiresAt <= x.expiresAt
    ensures var expired := set r | r in rows && r.expiresAt <= now;
      |rows| - |Cleanup(rows, now)| == if |expired| <= 100 then |expired| else 100
  {
    var victims, kept := Victims(rows, now), Cleanup(rows, now);
    forall r ensures r in kept <==> r in rows && r !in victims {
      FilterMembers(rows, Outside(victims), r);
    }
    VictimsExactly(rows, now);
    UniqueNoRepeats(rows);
    FilterNoRepeats(rows, Outside(victims));
    var all, gone := set r | r in rows, set r | r in victims;
    Sorting.SizeOfSet(rows, all);
    Sorting.SizeOfSet(kept, all - gone);
    Sorting.SizeOfSet(victims, gone);
  }

  lemma VictimsExactly(rows: seq<Row>, now: int)
    requires Unique(rows)
    ensures var victims, expired := Victims(rows, now), set r | r in rows && r.expiresAt <= now;
      && Sorting.NoRepeats(victims) && (forall r :: r in victims ==> r in expired)
      && |victims| == (if |expired| <= 100 then |expired| else 100)
      && (forall r, x :: r in victims && x in expired && x !in victims ==> r.expiresAt <= x.expiresAt)
  {
    hide Unique;
    var late := Expired(rows, now);
    LateExactly(rows, now);
    Sorting.SortNoRepeats(Earlier, late);
    Sorting.SortMembers(Earlier, late);
    Sorting.SortOrdered(Earlier, late);
    hide Expired, Sorting.Sort;
    var sorted := Sorting.Sort(Earlier, late);
    FirstOfSorted(sorted, Victims(rows, now));
  }

  lemma LateExactly(rows: seq<Row>, now: int)
    requires Unique(rows)
    ensures forall r :: r in Expired(rows, now) <==> r in rows && r.expiresAt <= now
    ensures Sorting.NoRepeats(Expired(rows, now))
    ensures |Expired(rows, now)| == |set r | r in rows && r.expiresAt <= now|
  {
    var late := Expired(rows, now);
    forall r ensures r in late <==> r in rows && r.expiresAt <= now {
      FilterMembers(rows, HasExpired(now), r);
    }
    UniqueNoRepeats(rows);
    FilterNoRepeats(rows, HasExpired(now));
    Sorting.SizeOfSet(late, set r | r in rows && r.expiresAt <= now);
  }

  /** Of rows ordered by expiry, those of the first part expire no later than any other. */
  lemma FirstOfSorted(sorted: seq<Row>, first: seq<Row>)
    requires first <= sorted && Sorting.Ordered(Earlier, sorted) && Sorting.NoRepeats(sorted)
    ensures Sorting.NoRepeats(first) && forall r :: r in first ==> r in sorted
    ensures forall r, x :: r in first && x in sorted && x !in first ==> r.expiresAt <= x.expiresAt
  {
    forall r, x | r in first && x in sorted && x !in first ensures r.expiresAt <= x.expiresAt {
      var i :| 0 <= i < |first| && first[i] == r;
      var j :| 0 <= j < |sorted| && sorted[j] == x;
      InPrefix(sorted, |first|, j);
      assert Earlier(sorted[i], sorted[j]);
    }
  }

  lemma InPrefix<T>(s: seq<T>, n: nat, j: nat)
    requires n <= |s| && j < |s|
    ensures j < n ==> s[j] in s[..n]
  {
    if j < n {
      assert s[..n][j] == s[j];
    }
  }

  /** A scope lists its rows that expire later than `now`, in the table's order. */
  lemma ListsExactly(rows: seq<Row>, scope: string, now: int, r: Row, x: Row)
    ensures r in ListRows(rows, scope, now) <==> r in rows && r.scope == scope && now < r.expiresAt
    ensures r in ListRows(rows, scope, now) && x in ListRows(rows, scope, now) && Precedes(rows, r, x) ==>
      Precedes(ListRows(rows, scope, now), r, x)
  {
    FilterMembers(rows, LiveIn(scope, now), r);
    FilterMembers(rows, LiveIn(scope, now), x);
    if Precedes(rows, r, x) && LiveIn(scope, now)(r) && LiveIn(scope, now)(x) {
      FilterKeepsOrder(rows, LiveIn(scope, now), r, x);
    }
  }

  // --- sessions -----------------------------------------------------------------

  const AUTHENTICATED_LIFETIME: nat := 30 * 24 * 60 * 60
  const ANONYMOUS_LIFETIME: nat := 30 * 60
  const INACTIVITY: nat := 30 * 24 * 60 * 60

  /** A session's lifetime is fixed when it is issued. */
  datatype Lifetime = Lifetime(issuedAt: int, authenticated: bool) {
    function Deadline(): int {
      issuedAt + if authenticated then AUTHENTICATED_LIFETIME else ANONYMOUS_LIFETIME
    }

    /** The expiry a request at `now` reads: thirty days ahead, cut to the deadline once it has changed the session. */
    function ExpiryDate(modified: bool, now: int): int {
      if modified && Deadline() < now + INACTIVITY then Deadline() else now + INACTIVITY
    }
  }

  /** What a session retains never expires before the session does. */
  lemma RowsOutliveSessions(l: Lifetime, modified: bool, now: int)
    requires l.issuedAt <= now
    ensures l.Deadline() <= l.ExpiryDate(modified, now)
    ensures l.Deadline() == l.issuedAt + if l.authenticated then 2_592_000 else 1800
    ensures l.ExpiryDate(modified, now) == if modified then l.Deadline() else now + 2_592_000
  {
  }

  /** The session each scope is derived from. */
  type Sessions = string -> Lifetime

  predicate Outlives(sessions: Sessions, r: Row) {
    sessions(r.scope).Deadline() <= r.expiresAt
  }

  /** Whatever is inserted outlives its session. */
  ghost predicate InSessions(sessions: Sessions, statements: seq<Statement>) {
    forall i :: 0 <= i < |statements| && statements[i].Inserting? ==> Outlives(sessions, statements[i].row)
  }

  ghost predicate Lasting(sessions: Sessions, rows: seq<Row>) {
    forall r :: r in rows ==> Outlives(sessions, r)
  }

  lemma StepKeepsLasting(sessions: Sessions, rows: seq<Row>, s: Statement)
    requires Lasting(sessions, rows) && (s.Inserting? ==> Outlives(sessions, s.row))
    ensures Lasting(sessions, Step(rows, s))
  {
    forall r | r in Step(rows, s) ensures Outlives(sessions, r) {
      match s {
        case CleaningUp(now) => CleanupMembers(rows, now, r);
        case Inserting(_) =>
        case Releasing(scope, id) => FilterMembers(rows, NotNamed(scope, id), r);
      }
    }
  }

  lemma {:induction false} RunKeepsLasting(sessions: Sessions, rows: seq<Row>, statements: seq<Statement>)
    requires Lasting(sessions, rows) && InSessions(sessions, statements)
    ensures Lasting(sessions, Run(rows, statements))
    decreases |statements|
  {
    if statements != [] {
      var n := |statements| - 1;
      RunKeepsLasting(sessions, rows, statements[..n]);
      StepKeepsLasting(sessions, Run(rows, statements[..n]), statements[n]);
    }
  }

  // --- when retaining fails -----------------------------------------------------

  /** A call made while its session lasts, among calls of the facade. */
  ghost predicate InSession(secret: nat, sessions: Sessions, c: RetainCall) {
    && c.now < sessions(c.scope.key).Deadline() <= c.scope.expiresAt
    && Facade(secret, c.first) && Facade(secret, c.second)
    && InSessions(sessions, c.first) && InSessions(sessions, c.second)
  }

  /** The statement can free what a row holds in a scope: it releases there, or its clock is past the deadline. */
  predicate MayFree(sessions: Sessions, s: Statement, scope: string) {
    match s
    case CleaningUp(now) => sessions(scope).Deadline() <= now
    case Inserting(_) => false
    case Releasing(other, _) => other == scope
  }

  /** Statement `k` frees the identity and the binding of `row`, and no later insert takes either. */
  ghost predicate Vacates(sessions: Sessions, rows: seq<Row>, statements: seq<Statement>, row: Row, k: nat)
    requires k < |statements|
  {
    && MayFree(sessions, statements[k], row.scope)
    && HasClash(Run(rows, statements[..k]), row)
    && !HasClash(Run(rows, statements[..k + 1]), row)
    && forall j :: k < j < |statements| ==> !Takes(Run(rows, statements[..j]), statements[j], row)
  }

  predicate Takes(rows: seq<Row>, s: Statement, row: Row) {
    s.Inserting? && Clash(s.row, row) && !HasClash(rows, s.row)
  }

  lemma ClashIn(rows: seq<Row>, row: Row)
    ensures HasClash(rows, row) <==> exists r :: r in rows && Clash(r, row)
  {
    if HasClash(rows, row) {
      var i :| 0 <= i < |rows| && Clash(rows[i], row);
      assert rows[i] in rows;
    }
  }

  lemma OnlyFreeingFrees(sessions: Sessions, rows: seq<Row>, s: Statement, row: Row)
    requires Lasting(sessions, rows) && HasClash(rows, row) && !HasClash(Step(rows, s), row)
    ensures MayFree(sessions, s, row.scope)
  {
    var i :| 0 <= i < |rows| && Clash(rows[i], row);
    if !MayFree(sessions, s, row.scope) {
      StepKeepsRow(rows, s, rows[i]);
      ClashIn(Step(rows, s), row);
    }
  }

  lemma OnlyTakingTakes(rows: seq<Row>, s: Statement, row: Row)
    requires !HasClash(rows, row)
    ensures HasClash(Step(rows, s), row) <==> Takes(rows, s, row)
  {
    ClashIn(rows, row);
    ClashIn(Step(rows, s), row);
    match s {
      case CleaningUp(now) =>
        forall r | r in Step(rows, s) ensures r in rows { CleanupMembers(rows, now, r); }
      case Inserting(new_) =>
        if !HasClash(rows, new_) { assert Step(rows, s)[|rows|] == new_; }
      case Releasing(scope, id) =>
        forall r | r in Step(rows, s) ensures r in rows { FilterMembers(rows, NotNamed(scope, id), r); }
    }
  }

  /** One statement more. */
  lemma VacatesLonger(sessions: Sessions, rows: seq<Row>, statements: seq<Statement>, row: Row, k: nat)
    requires k < |statements| - 1
    ensures Vacates(sessions, rows, statements, row, k) <==>
      && Vacates(sessions, rows, statements[..|statements| - 1], row, k)
      && !Takes(Run(rows, statements[..|statements| - 1]), statements[|statements| - 1], row)
  {
    hide Run, HasClash, Takes, MayFree;
    var n := |statements| - 1;
    var shorter := statements[..n];
    assert shorter[..k] == statements[..k] && shorter[..k + 1] == statements[..k + 1];
    forall j | k < j < n ensures shorter[j] == statements[j] && Run(rows, shorter[..j]) == Run(rows, statements[..j]) {
      assert shorter[..j] == statements[..j];
    }
  }

  lemma VacatesLast(sessions: Sessions, rows: seq<Row>, statements: seq<Statement>, row: Row)
    requires statements != []
    ensures var n := |statements| - 1;
      Vacates(sessions, rows, statements, row, n) <==>
        && MayFree(sessions, statements[n], row.scope)
        && HasClash(Run(rows, statements[..n]), row)
        && !HasClash(Run(rows, statements), row)
  {
    hide Run, HasClash, Takes, MayFree;
    assert statements[..|statements| - 1 + 1] == statements;
  }

  ghost predicate Vacated(sessions: Sessions, rows: seq<Row>, statements: seq<Statement>, row: Row) {
    exists k :: 0 <= k < |statements| && Vacates(sessions, rows, statements, row, k)
  }

  lemma VacatedStep(sessions: Sessions, rows: seq<Row>, statements: seq<Statement>, row: Row)
    requires statements != []
    ensures var n := |statements| - 1;
      Vacated(sessions, rows, statements, row) <==>
        || (Vacated(sessions, rows, statements[..n], row) && !Takes(Run(rows, statements[..n]), statements[n], row))
        || Vacates(sessions, rows, statements, row, n)
  {
    hide Vacates, Run, Takes;
    var n := |statements| - 1;
    forall k | 0 <= k < n
      ensures Vacates(sessions, rows, statements, row, k) <==>
        Vacates(sessions, rows, statements[..n], row, k) && !Takes(Run(rows, statements[..n]), statements[n], row)
    {
      VacatesLonger(sessions, rows, statements, row, k);
    }
  }

  /** From a table with a clash to one without: some statement freed, and none took since. */
  lemma {:induction false} FreedExactly(sessions: Sessions, rows: seq<Row>, statements: seq<Statement>, row: Row)
    requires Lasting(sessions, rows) && InSessions(sessions, statements) && HasClash(rows, row)
    ensures !HasClash(Run(rows, statements), row) <==> Vacated(sessions, rows, statements, row)
    decreases |statements|
  {
    if statements != [] {
      var n := |statements| - 1;
      var shorter, before := statements[..n], Run(rows, statements[..n]);
      FreedExactly(sessions, rows, shorter, row);
      RunKeepsLasting(sessions, rows, shorter);
      assert Run(rows, statements) == Step(before, statements[n]);
      hide Vacates, Vacated, Run, Takes, HasClash, MayFree, Lasting, Step;
      VacatedStep(sessions, rows, statements, row);
      VacatesLast(sessions, rows, statements, row);
      if !HasClash(before, row) {
        OnlyTakingTakes(before, statements[n], row);
      } else if !HasClash(Step(before, statements[n]), row) {
        OnlyFreeingFrees(sessions, before, statements[n], row);
      }
    }
  }

  lemma InsertLeavesClash(rows: seq<Row>, row: Row)
    ensures HasClash(InsertRow(rows, row), row)
  {
    if !HasClash(rows, row) {
      assert InsertRow(rows, row)[|rows|] == row;
    }
  }

  lemma RetainKeepsLasting(secret: nat, sessions: Sessions, rows: seq<Row>, c: RetainCall)
    requires Lasting(sessions, rows) && InSession(secret, sessions, c)
    ensures Lasting(sessions, InsertRow(AtInsert(rows, c), RowOf(secret, c)))
    ensures Lasting(sessions, AtReadBack(secret, rows, c))
  {
    StepKeepsLasting(sessions, rows, CleaningUp(c.now));
    RunKeepsLasting(sessions, Cleanup(rows, c.now), c.first);
    StepKeepsLasting(sessions, AtInsert(rows, c), Inserting(RowOf(secret, c)));
    RunKeepsLasting(sessions, InsertRow(AtInsert(rows, c), RowOf(secret, c)), c.second);
  }

  /** A retain fails exactly when no row of its identity or its binding is there to be read back. */
  lemma FailsWithoutRow(secret: nat, sessions: Sessions, rows: seq<Row>, c: RetainCall)
    requires Good(secret, rows) && Lasting(sessions, rows) && InSession(secret, sessions, c)
    ensures RetainOutcome(secret, rows, c) == Err(Unavailable) <==>
      !HasClash(AtReadBack(secret, rows, c), RowOf(secret, c))
  {
    var after, row := AtReadBack(secret, rows, c), RowOf(secret, c);
    RetainKeepsGood(secret, rows, c);
    RetainKeepsLasting(secret, sessions, rows, c);
    BindingFound(after, c.scope.key, row.binding, c.id, c.now);
    ClashIn(after, row);
    forall r | r in after && r.scope == c.scope.key ensures Live(r, c.now) {
      assert Outlives(sessions, r);
    }
  }

  /**
   * For every interleaving and every table it can have produced: a retain made while its session lasts
   * fails if and only if, between its insert and its read-back, some statement freed its identity and
   * binding - a release in its own scope, or a cleanup by a clock past the session's deadline - and no
   * later insert took either. No backlog of expired rows, in any scope, makes it fail.
   */
  lemma RetainFailsExactly(secret: nat, sessions: Sessions, statements: seq<Statement>, c: RetainCall)
    requires Facade(secret, statements) && InSessions(sessions, statements) && InSession(secret, sessions, c)
    ensures var rows, row := Run([], statements), RowOf(secret, c);
      RetainOutcome(secret, rows, c) == Err(Unavailable) <==>
        Vacated(sessions, InsertRow(AtInsert(rows, c), row), c.second, row)
  {
    var rows, row := Run([], statements), RowOf(secret, c);
    RunsAreGood(secret, statements);
    RunKeepsLasting(sessions, [], statements);
    FailsWithoutRow(secret, sessions, rows, c);
    RetainKeepsLasting(secret, sessions, rows, c);
    InsertLeavesClash(AtInsert(rows, c), row);
    FreedExactly(sessions, InsertRow(AtInsert(rows, c), row), c.second, row);
  }

  /** The logical subject a call names: its binding, or its identity when it gives none. */
  function Subject(c: RetainCall): string {
    match c.binding
    case Some(binding) => binding
    case None => c.id
  }

  /** The statement neither releases the call's identity nor is a cleanup from the call's expiry on. */
  predicate SparesCall(s: Statement, c: RetainCall) {
    match s
    case CleaningUp(now) => now < c.scope.expiresAt
    case Inserting(_) => true
    case Releasing(scope, id) => scope != c.scope.key || id != c.id
  }

  ghost predicate AllSpare(statements: seq<Statement>, c: RetainCall) {
    forall i :: 0 <= i < |statements| ==> SparesCall(statements[i], c)
  }

  /** No row of the table has the call's identity or its subject. */
  ghost predicate IsNew(rows: seq<Row>, c: RetainCall) {
    forall r :: r in rows && r.scope == c.scope.key ==> r.id != c.id && r.binding != Subject(c)
  }

  lemma NewMeansNoClash(secret: nat, rows: seq<Row>, c: RetainCall)
    ensures IsNew(rows, c) <==> !HasClash(rows, RowOf(secret, c))
  {
    ClashIn(rows, RowOf(secret, c));
  }

  /** What a new call inserts is there at its read-back and after every statement that spares it. */
  lemma NewCallIsStored(secret: nat, rows: seq<Row>, c: RetainCall, statements: seq<Statement>)
    requires IsNew(AtInsert(rows, c), c) && AllSpare(c.second, c) && AllSpare(statements, c)
    ensures RowOf(secret, c) in AtReadBack(secret, rows, c)
    ensures RowOf(secret, c) in Run(AtReadBack(secret, rows, c), statements)
  {
    var row := RowOf(secret, c);
    NewMeansNoClash(secret, AtInsert(rows, c), c);
    var inserted := InsertRow(AtInsert(rows, c), row);
    assert inserted[|AtInsert(rows, c)|] == row;
    RunKeepsRow(inserted, c.second, row);
    RunKeepsRow(AtReadBack(secret, rows, c), statements, row);
  }

  /**
   * A call whose identity and subject are new when it inserts is retained, if its scope has not expired at its clock,
   * unless its identity is released, or cleaned up after expiry, before the read-back.
   */
  lemma FreshIsRetained(secret: nat, statements: seq<Statement>, c: RetainCall)
    requires Facade(secret, statements) && Facade(secret, c.first) && Facade(secret, c.second)
    requires c.now < c.scope.expiresAt
    requires IsNew(AtInsert(Run([], statements), c), c) && AllSpare(c.second, c)
    ensures RetainOutcome(secret, Run([], statements), c) == Ok(Retained)
  {
    RunsAreGood(secret, statements);
    NewCallIsStored(secret, Run([], statements), c, []);
    RetainedMeansStored(secret, Run([], statements), c);
    assert Holds(RowOf(secret, c), c);
  }

  /** What a new call stores is loaded exactly before its scope expires, while it is spared. */
  lemma StoredUntilExpiry(secret: nat, before: seq<Statement>, c: RetainCall, statements: seq<Statement>, at: int)
    requires Facade(secret, before) && Facade(secret, c.first) && Facade(secret, c.second) && Facade(secret, statements)
    requires IsNew(AtInsert(Run([], before), c), c) && AllSpare(c.second, c) && AllSpare(statements, c)
    ensures LoadOutcome(secret, Run(AtReadBack(secret, Run([], before), c), statements), c.scope, c.id, at)
         == Ok(if at < c.scope.expiresAt then Some(c.payload) else None)
  {
    var rows := Run(AtReadBack(secret, Run([], before), c), statements);
    RunsAreGood(secret, before);
    RetainKeepsGood(secret, Run([], before), c);
    RunKeepsGood(secret, AtReadBack(secret, Run([], before), c), statements);
    NewCallIsStored(secret, Run([], before), c, statements);
    if at < c.scope.expiresAt {
      GetFinds(rows, RowOf(secret, c), at);
    } else {
      GetFound(rows, c.scope.key, c.id, at);
      if GetRow(rows, c.scope.key, c.id, at).Some? {
        UniqueMembers(rows, RowOf(secret, c), GetRow(rows, c.scope.key, c.id, at).value);
      }
    }
  }

  /**
   * The first writer of a subject wins: while what a new call stored is spared, another call of the scope that names
   * the same subject, by binding or by identity, is told the first one's payload, unless its own identity is live.
   */
  lemma FirstOfSubjectWins(secret: nat, before: seq<Statement>, c: RetainCall, between: seq<Statement>, d: RetainCall)
    requires Facade(secret, before) && Facade(secret, c.first) && Facade(secret, c.second)
    requires Facade(secret, between) && Facade(secret, d.first) && Facade(secret, d.second)
    requires IsNew(AtInsert(Run([], before), c), c) && AllSpare(c.second, c) && AllSpare(between, c)
    requires d.scope.key == c.scope.key && d.id != c.id && Subject(d) == Subject(c)
    requires d.now < c.scope.expiresAt && AllSpare(d.first, c) && AllSpare(d.second, c)
    requires var rows := Run(AtReadBack(secret, Run([], before), c), between);
      forall r :: r in AtReadBack(secret, rows, d) && r.scope == d.scope.key && r.id == d.id ==> r.expiresAt <= d.now
    ensures RetainOutcome(secret, Run(AtReadBack(secret, Run([], before), c), between), d) == Ok(Bound(c.payload))
  {
    var stored := AtReadBack(secret, Run([], before), c);
    var rows, row := Run(stored, between), RowOf(secret, c);
    RunsAreGood(secret, before);
    RetainKeepsGood(secret, Run([], before), c);
    RunKeepsGood(secret, stored, between);
    NewCallIsStored(secret, Run([], before), c, between);
    RetainKeepsRow(secret, rows, d, row);
    LiveRowDecides(secret, rows, d, row);
  }

  /** The exception is real: another request of the scope releases the identity before it is read back. */
  lemma ReleaseInBetweenFails(secret: nat, scope: Scope, id: string, binding: Option<string>, payload: Payload,
                              nonce: nat, now: int)
    ensures RetainOutcome(secret, [], RetainCall(scope, id, binding, payload, nonce, now, [], [Releasing(scope.key, id)]))
         == Err(Unavailable)
  {
    var c := RetainCall(scope, id, binding, payload, nonce, now, [], [Releasing(scope.key, id)]);
    var row := RowOf(secret, c);
    assert Cleanup([], now) == [] && AtInsert([], c) == [] && InsertRow([], row) == [row];
    assert c.second[..0] == [] && [row][0] == row && [row][1..] == [];
    assert Run([row], c.second) == ReleaseRow(Run([row], c.second[..0]), scope.key, id);
    assert AtReadBack(secret, [], c) == [];
  }

  /** Releasing frees the identity and the binding its row held. */
  lemma ReleaseFrees(secret: nat, rows: seq<Row>, r: Row, scope: Scope, now: int)
    requires Good(secret, rows) && r in rows && scope.key == r.scope
    ensures forall x :: x in ReleaseRow(rows, r.scope, r.id) ==> !Clash(x, r)
    ensures LoadOutcome(secret, ReleaseRow(rows, r.scope, r.id), scope, r.id, now) == Ok(None)
  {
    var after := ReleaseRow(rows, r.scope, r.id);
    forall x | x in after ensures !Clash(x, r) {
      FilterMembers(rows, NotNamed(r.scope, r.id), x);
      if Clash(x, r) { UniqueMembers(rows, x, r); }
    }
    GetFound(after, r.scope, r.id, now);
  }
}
