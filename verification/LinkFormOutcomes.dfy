/** What the new invitation link form answers, over what was typed. */
module LinkFormOutcomes {
  import opened Wrappers
  import opened Text
  import opened Decimal
  import opened LinkFormErrors
  import opened LinkForm
  import I = InvitationLinks
  import Sorting

  // --- typed numbers ------------------------------------------------------------

  /** Blank, or a number from 1 to 2^32 - 1. */
  predicate TypedCount(raw: string) {
    AllWhitespace(raw) || (Trim(raw) != [] && AllDigits(Trim(raw)) && 1 <= Value(Trim(raw)) <= 0xFFFF_FFFF)
  }

  function TypedValue(raw: string): Option<nat>
    requires TypedCount(raw)
  {
    if AllWhitespace(raw) then None else Some(Value(Trim(raw)))
  }

  lemma CountExactly(raw: string, notPositive: string, tooLarge: string)
    ensures ParseOptionalCount(raw, notPositive, tooLarge) ==
      if TypedCount(raw) then Ok(TypedValue(raw))
      else if AllDigits(Trim(raw)) && Value(Trim(raw)) > 0xFFFF_FFFF then Err(tooLarge) else Err(notPositive)
  {
    hide Trim;
    TrimIsEmptyIff(raw);
  }

  // --- repositories -------------------------------------------------------------

  /** Choice `i` is offered and selected. */
  predicate Chosen(selected: seq<nat>, available: seq<RepositoryChoice>, i: int) {
    0 <= i < |available| && available[i].id in selected
  }

  /** The scope is the chosen choices, under their own names. */
  lemma {:induction false} ScopeHoldsChoices(selected: seq<nat>, available: seq<RepositoryChoice>, r: I.Repo)
    ensures r in RepositoryScope(selected, available) <==>
      exists i :: Chosen(selected, available, i) && available[i].id == r.id && available[i].fullName == r.fullName
  {
    if available != [] {
      ScopeHoldsChoices(selected, available[1..], r);
      assert available == [available[0]] + available[1..];
      if r in RepositoryScope(selected, available) && r in RepositoryScope(selected, available[1..]) {
        var i :| Chosen(selected, available[1..], i) && available[1..][i].id == r.id && available[1..][i].fullName == r.fullName;
        assert Chosen(selected, available, i + 1);
      } else if r in RepositoryScope(selected, available) {
        assert Chosen(selected, available, 0);
      }
      if i :| Chosen(selected, available, i) && available[i].id == r.id && available[i].fullName == r.fullName {
        if i > 0 {
          assert Chosen(selected, available[1..], i - 1);
        }
      }
    }
  }

  ghost predicate ChosenApart(selected: seq<nat>, available: seq<RepositoryChoice>) {
    forall i, j :: Chosen(selected, available, i) && Chosen(selected, available, j) && i < j ==>
      available[i].id != available[j].id
  }

  ghost predicate Apart(repos: seq<I.Repo>) {
    forall i, j :: 0 <= i < j < |repos| ==> repos[i].id != repos[j].id
  }

  lemma {:induction false} ScopeIsApart(selected: seq<nat>, available: seq<RepositoryChoice>)
    ensures Apart(RepositoryScope(selected, available)) <==> ChosenApart(selected, available)
  {
    if available != [] {
      var tail := available[1..];
      ScopeIsApart(selected, tail);
      ApartTail(selected, available);
      if available[0].id in selected {
        HeadOfScope(selected, available);
        hide RepositoryScope, ChosenApart, Apart;
        ScopeIds(selected, tail, available[0].id);
        HeadApart(RepositoryScope(selected, available), RepositoryScope(selected, tail));
      }
    }
  }

  lemma HeadOfScope(selected: seq<nat>, available: seq<RepositoryChoice>)
    requires available != [] && available[0].id in selected
    ensures var scope := RepositoryScope(selected, available);
      scope != [] && scope[0].id == available[0].id && scope[1..] == RepositoryScope(selected, available[1..])
  {
  }

  ghost predicate ChosenAs(selected: seq<nat>, available: seq<RepositoryChoice>, id: nat) {
    exists i :: Chosen(selected, available, i) && available[i].id == id
  }

  ghost predicate Holds(scope: seq<I.Repo>, id: nat) {
    exists k :: 0 <= k < |scope| && scope[k].id == id
  }

  /** The ids of the scope are those of the chosen choices. */
  lemma ScopeIds(selected: seq<nat>, available: seq<RepositoryChoice>, id: nat)
    ensures Holds(RepositoryScope(selected, available), id) <==> ChosenAs(selected, available, id)
  {
    hide RepositoryScope;
    var scope := RepositoryScope(selected, available);
    if k :| 0 <= k < |scope| && scope[k].id == id {
      ScopeHoldsChoices(selected, available, scope[k]);
    }
    if i :| Chosen(selected, available, i) && available[i].id == id {
      var r := I.Repo(available[i].id, available[i].fullName);
      ScopeHoldsChoices(selected, available, r);
      assert r in scope;
      var k :| 0 <= k < |scope| && scope[k] == r;
      assert scope[k].id == id;
    }
  }

  lemma HeadApart(scope: seq<I.Repo>, rest: seq<I.Repo>)
    requires scope != [] && scope[1..] == rest
    ensures Apart(scope) <==> Apart(rest) && !Holds(rest, scope[0].id)
  {
    forall j | 0 <= j < |rest| ensures rest[j] == scope[j + 1] {
    }
    if Apart(rest) && (forall j :: 0 <= j < |rest| ==> rest[j].id != scope[0].id) {
      forall i, j | 0 <= i < j < |scope| ensures scope[i].id != scope[j].id {
        assert scope[j] == rest[j - 1] && (i > 0 ==> scope[i] == rest[i - 1]);
      }
    }
    if Apart(scope) {
      forall i, j | 0 <= i < j < |rest| ensures rest[i].id != rest[j].id {
        assert scope[i + 1].id != scope[j + 1].id;
      }
      forall j | 0 <= j < |rest| ensures rest[j].id != scope[0].id {
        assert scope[0].id != scope[j + 1].id;
      }
    }
  }

  lemma ApartTail(selected: seq<nat>, available: seq<RepositoryChoice>)
    requires available != []
    ensures ChosenApart(selected, available) <==>
      && ChosenApart(selected, available[1..])
      && (available[0].id in selected ==>
            !ChosenAs(selected, available[1..], available[0].id))
  {
    var tail := available[1..];
    if ChosenApart(selected, available) {
      forall i, j | Chosen(selected, tail, i) && Chosen(selected, tail, j) && i < j ensures tail[i].id != tail[j].id {
        assert Chosen(selected, available, i + 1) && Chosen(selected, available, j + 1);
      }
      if available[0].id in selected {
        assert Chosen(selected, available, 0);
        forall i | Chosen(selected, tail, i) ensures tail[i].id != available[0].id {
          assert Chosen(selected, available, i + 1);
        }
      }
    }
    if ChosenApart(selected, tail)
       && (available[0].id in selected ==> forall i :: Chosen(selected, tail, i) ==> tail[i].id != available[0].id) {
      forall i, j | Chosen(selected, available, i) && Chosen(selected, available, j) && i < j
        ensures available[i].id != available[j].id
      {
        assert Chosen(selected, tail, j - 1);
        if i > 0 {
          assert Chosen(selected, tail, i - 1);
        }
      }
    }
  }

  function Ids(repos: seq<I.Repo>): (ids: seq<nat>)
    ensures |ids| == |repos|
    ensures forall i :: 0 <= i < |repos| ==> ids[i] == repos[i].id
  {
    seq(|repos|, i requires 0 <= i < |repos| => repos[i].id)
  }

  /** A scope without an id twice has as many repositories as it has ids. */
  lemma DistinctSize(repos: seq<I.Repo>, ids: set<nat>)
    requires Apart(repos) && forall id :: id in ids <==> Holds(repos, id)
    ensures |repos| == |ids|
  {
    forall id ensures id in Ids(repos) <==> id in ids {
      if id in ids {
        var k :| 0 <= k < |repos| && repos[k].id == id;
        assert Ids(repos)[k] == id;
      }
      if k :| 0 <= k < |Ids(repos)| && Ids(repos)[k] == id {
        assert repos[k].id == id;
      }
    }
    Sorting.SizeOfSet(Ids(repos), ids);
  }

  /** The ids of a selection, each once. */
  function Different(selected: seq<nat>): set<nat> {
    set id: nat | id in selected
  }

  /** A chosen repository core can use: nonzero, named by owner and name, in at most 256 bytes. */
  ghost predicate Usable(choice: RepositoryChoice) {
    && choice.id != 0 && ByteLength(choice.fullName) <= 256
    && exists owner, name :: I.IsFullName(choice.fullName, owner, name)
  }

  /** Which selections make a scope: something is selected, everything selected is offered, once each, and usable. */
  ghost predicate Selectable(selected: seq<nat>, available: seq<RepositoryChoice>) {
    && selected != []
    && (forall id :: id in selected ==> exists i :: 0 <= i < |available| && available[i].id == id)
    && ChosenApart(selected, available)
    && (forall i :: Chosen(selected, available, i) ==> Usable(available[i]))
    && |Different(selected)| <= 100
  }

  lemma NothingMissing(selected: seq<nat>, available: seq<RepositoryChoice>)
    ensures MissingIds(selected, available) == [] <==>
      forall id :: id in selected ==> exists i :: 0 <= i < |available| && available[i].id == id
  {
    var missing := MissingIds(selected, available);
    if missing != [] {
      assert missing[0] in missing;
    }
    forall id | id in selected ensures Offers(available, id) <==> exists i :: 0 <= i < |available| && available[i].id == id {
    }
  }

  /** With nothing missing and no id twice, the scope has as many repositories as ids were selected. */
  lemma ScopeSize(selected: seq<nat>, available: seq<RepositoryChoice>)
    requires MissingIds(selected, available) == [] && ChosenApart(selected, available)
    ensures |RepositoryScope(selected, available)| == |Different(selected)|
  {
    hide MissingIds, RepositoryScope, ChosenApart, Apart;
    ScopeIsApart(selected, available);
    forall id ensures id in selected <==> Holds(RepositoryScope(selected, available), id) {
      ScopeIds(selected, available, id);
      assert id !in MissingIds(selected, available);
    }
    hide Holds;
    DistinctSize(RepositoryScope(selected, available), Different(selected));
  }

  lemma UsableScope(selected: seq<nat>, available: seq<RepositoryChoice>)
    ensures I.AllValid(RepositoryScope(selected, available)) <==>
      forall i :: Chosen(selected, available, i) ==> Usable(available[i])
  {
    hide RepositoryScope, I.FullNameParses;
    var scope := RepositoryScope(selected, available);
    forall i | 0 <= i < |available| ensures Usable(available[i]) <==> I.ValidRepo(I.Repo(available[i].id, available[i].fullName)) {
      I.FullNameForm(available[i].fullName);
    }
    hide Usable, I.ValidRepo;
    forall i | Chosen(selected, available, i) ensures I.Repo(available[i].id, available[i].fullName) in scope {
      ScopeHoldsChoices(selected, available, I.Repo(available[i].id, available[i].fullName));
    }
    forall k | 0 <= k < |scope|
      ensures exists i :: Chosen(selected, available, i) && I.Repo(available[i].id, available[i].fullName) == scope[k]
    {
      ScopeHoldsChoices(selected, available, scope[k]);
    }
  }

  lemma ScopeRuleExactly(selected: seq<nat>, available: seq<RepositoryChoice>)
    ensures ScopeRule(selected, available).None? <==> Selectable(selected, available)
  {
    hide MissingIds, RepositoryScope, ChosenApart, Usable, I.AllValid, I.ParseScope, Chosen;
    var scope := RepositoryScope(selected, available);
    RuleIsBoth(selected, available);
    NothingMissing(selected, available);
    I.ScopeOutcome(scope);
    I.DistinctById(scope);
    ScopeIsApart(selected, available);
    UsableScope(selected, available);
    if MissingIds(selected, available) == [] && ChosenApart(selected, available) {
      ScopeSize(selected, available);
      if selected != [] {
        assert selected[0] in Different(selected);
      } else {
        assert Different(selected) == {};
      }
    }
  }

  lemma RuleIsBoth(selected: seq<nat>, available: seq<RepositoryChoice>)
    ensures ScopeRule(selected, available).None? <==>
      MissingIds(selected, available) == [] && I.ParseScope(RepositoryScope(selected, available)).Ok?
  {
    hide MissingIds, RepositoryScope;
  }

  // --- acceptance ---------------------------------------------------------------

  function Spelled(p: I.Permission): string {
    match p
    case Pull => "pull"
    case Triage => "triage"
    case Push => "push"
    case Maintain => "maintain"
    case Admin => "admin"
  }

  /** The five spellings, each for its own permission. */
  lemma PermissionExactly(s: string, p: I.Permission)
    ensures ParsePermission(s) == Some(p) <==> s == Spelled(p)
  {
  }

  /** Blank, or a number of days that lead to an instant there is. */
  ghost predicate TypedDays(raw: string, now: int, after: Calendar) {
    TypedCount(raw) && (TypedValue(raw).Some? ==> after(now, TypedValue(raw).value).Some?)
  }

  ghost predicate TypedText(v: FormValues) {
    && 1 <= |Trim(v.description)| <= 120 && '\n' !in v.description && '\r' !in v.description
    && ByteLength(Trim(v.internalNote)) <= 16384
    && v.permission in {"pull", "triage", "push", "maintain", "admin"}
  }

  lemma TextRules(v: FormValues)
    ensures TypedText(v) <==>
      && DescriptionRule(v.description).None? && NoteRule(v.internalNote).None? && PermissionRule(v.permission).None?
  {
    hide Trim, ByteLength;
    I.LineBreaks(v.description);
  }

  lemma NumberRules(v: FormValues, now: int, after: Calendar)
    ensures TypedCount(v.maxUses) && TypedDays(v.expiresInDays, now, after) <==>
      && !HasRawNumeric(v)
      && MaxUsesRule(ModelOf(v).maxUses).None? && ExpiresRule(ModelOf(v).expiresInDays, now, after).None?
    ensures TypedCount(v.maxUses) ==> ModelOf(v).maxUses == TypedValue(v.maxUses)
    ensures TypedCount(v.expiresInDays) ==> ModelOf(v).expiresInDays == TypedValue(v.expiresInDays)
  {
    CountExactly(v.maxUses, MAX_USES_NOT_POSITIVE, MAX_USES_TOO_LARGE);
    CountExactly(v.expiresInDays, EXPIRES_IN_DAYS_NOT_POSITIVE, EXPIRES_IN_DAYS_TOO_FAR);
    hide ParseOptionalCount, Trim, AllWhitespace, AllDigits, Value;
  }

  /** Exactly which submissions are accepted, over the typed values and the offered choices. */
  lemma AcceptedExactly(v: FormValues, available: seq<RepositoryChoice>, now: int, after: Calendar)
    ensures Submit(v, available, now, after).Ok? <==>
      && TypedText(v)
      && TypedCount(v.maxUses)
      && TypedDays(v.expiresInDays, now, after)
      && Selectable(v.selectedRepoIds, available)
  {
    SubmitOutcome(v, available, now, after);
    TextRules(v);
    NumberRules(v, now, after);
    ScopeRuleExactly(v.selectedRepoIds, available);
    hide TypedText, TypedCount, TypedDays, Selectable, Submit, HasRawNumeric, DescriptionRule, NoteRule, PermissionRule,
      MaxUsesRule, ExpiresRule, ScopeRule;
  }

  /** What is accepted is what was typed, and the command carries it under the identities it is given. */
  lemma AcceptedAsTyped(v: FormValues, available: seq<RepositoryChoice>, now: int, after: Calendar,
                        linkId: nat, admin: I.AccountAdmin, accountId: nat, installationId: nat)
    requires Submit(v, available, now, after).Ok?
    ensures TypedCount(v.maxUses) && TypedCount(v.expiresInDays)
    ensures var c := IntoCommand(Submit(v, available, now, after).value, linkId, admin, accountId, installationId);
      && c.linkId == linkId && c.admin == admin && c.accountId == accountId && c.installationId == installationId
      && c.description == Trim(v.description)
      && c.internalNote == (if AllWhitespace(v.internalNote) then None else Some(Trim(v.internalNote)))
      && v.permission == Spelled(c.permission)
      && c.approvalRequired == v.approvalRequired
      && c.maxUses == TypedValue(v.maxUses)
      && (if TypedValue(v.expiresInDays).None? then c.expiresAt == None
          else c.expiresAt.Some? && c.expiresAt == after(now, TypedValue(v.expiresInDays).value))
      && (forall r :: r in c.repos ==>
            exists i :: Chosen(v.selectedRepoIds, available, i)
                        && available[i].id == r.id && available[i].fullName == r.fullName)
  {
    AcceptedExactly(v, available, now, after);
    NumberRules(v, now, after);
    var d := Submit(v, available, now, after).value;
    FinishedAsModelled(ModelOf(v), Reported(v, available, now, after), available, now, after);
    TrimIsEmptyIff(v.internalNote);
    PermissionExactly(v.permission, d.permission);
    var scope := RepositoryScope(v.selectedRepoIds, available);
    I.AcceptedScope(scope);
    SameMembers(d.repos, scope);
    hide TypedText, TypedDays, Selectable, Submit, Finish, Reported, RepositoryScope, I.ParseScope, Trim, AllWhitespace,
      TypedCount, TypedValue, Chosen;
    forall r | r in d.repos
      ensures exists i :: Chosen(v.selectedRepoIds, available, i)
                          && available[i].id == r.id && available[i].fullName == r.fullName
    {
      ScopeHoldsChoices(v.selectedRepoIds, available, r);
    }
  }

  /** What the derivations make of a model they accept. */
  lemma FinishedAsModelled(m: FormModel, errors: Errors, available: seq<RepositoryChoice>, now: int, after: Calendar)
    requires Finish(m, errors, available, now, after).Ok?
    ensures var d := Finish(m, errors, available, now, after).value;
      && d.description == Trim(m.description)
      && d.internalNote == (if Trim(m.internalNote) == [] then None else Some(Trim(m.internalNote)))
      && ParsePermission(m.permission) == Some(d.permission)
      && d.approvalRequired == m.approvalRequired
      && d.maxUses == m.maxUses
      && (if m.expiresInDays.None? then d.expiresAt == None
          else d.expiresAt.Some? && d.expiresAt == after(now, m.expiresInDays.value))
      && I.ParseScope(RepositoryScope(m.repoIds, available)) == Ok(d.repos)
  {
    hide Trim, RepositoryScope, I.ParseScope, ParsePermission, IsEmpty;
  }

  // --- what a rejected submission is told ---------------------------------------

  lemma SlotAfterFilled(e: Errors, f: Field, message: Option<string>, g: Field)
    requires Slotted(f) && Slotted(g)
    ensures Slot(AttachAll(e, Filled(f, message)), g) ==
      if f == g && Slot(e, g).None? then message else Slot(e, g)
  {
    var submit := Filled(f, message);
    if message.Some? {
      assert submit[..0] == [];
    }
  }

  /** Six rules attached in form order: each slot keeps what it had, or takes its own rule's message. */
  lemma SlotsAfterRules(e: Errors, a: Option<string>, b: Option<string>, c: Option<string>,
                        d: Option<string>, x: Option<string>, y: Option<string>, g: Field)
    requires Slotted(g)
    ensures Slot(AttachAll(e, Filled(Description, a) + Filled(InternalNote, b) + Filled(Permission, c)
                              + Filled(MaxUses, d) + Filled(ExpiresInDays, x) + Filled(RepoIds, y)), g)
         == if Slot(e, g).Some? then Slot(e, g)
            else match g
                 case Description => a
                 case InternalNote => b
                 case Permission => c
                 case MaxUses => d
                 case ExpiresInDays => x
                 case RepoIds => y
  {
    hide AttachAll, Filled, Slot;
    var s1 := Filled(Description, a);
    var s2 := s1 + Filled(InternalNote, b);
    var s3 := s2 + Filled(Permission, c);
    var s4 := s3 + Filled(MaxUses, d);
    var s5 := s4 + Filled(ExpiresInDays, x);
    AttachAllConcat(e, s1, Filled(InternalNote, b));
    AttachAllConcat(e, s2, Filled(Permission, c));
    AttachAllConcat(e, s3, Filled(MaxUses, d));
    AttachAllConcat(e, s4, Filled(ExpiresInDays, x));
    AttachAllConcat(e, s5, Filled(RepoIds, y));
    SlotAfterFilled(e, Description, a, g);
    SlotAfterFilled(AttachAll(e, s1), InternalNote, b, g);
    SlotAfterFilled(AttachAll(e, s2), Permission, c, g);
    SlotAfterFilled(AttachAll(e, s3), MaxUses, d, g);
    SlotAfterFilled(AttachAll(e, s4), ExpiresInDays, x, g);
    SlotAfterFilled(AttachAll(e, s5), RepoIds, y, g);
  }

  function CountMessage(raw: string, notPositive: string, tooLarge: string): Option<string> {
    if TypedCount(raw) then None
    else if AllDigits(Trim(raw)) && Value(Trim(raw)) > 0xFFFF_FFFF then Some(tooLarge) else Some(notPositive)
  }

  /** What a rejected submission says at each field, over the typed values. */
  lemma ReportedExactly(v: FormValues, available: seq<RepositoryChoice>, now: int, after: Calendar)
    ensures var e := Reported(v, available, now, after);
      && e.description == (if AllWhitespace(v.description) then Some(DESCRIPTION_REQUIRED)
                           else if '\n' in v.description || '\r' in v.description then Some(DESCRIPTION_SINGLE_LINE)
                           else if |Trim(v.description)| > 120 then Some(DESCRIPTION_TOO_LONG)
                           else None)
      && e.internalNote == (if ByteLength(Trim(v.internalNote)) > 16384 then Some(INTERNAL_NOTE_TOO_LONG) else None)
      && e.permission == (if v.permission in {"pull", "triage", "push", "maintain", "admin"} then None
                          else Some(PERMISSION_UNSUPPORTED))
      && e.maxUses == CountMessage(v.maxUses, MAX_USES_NOT_POSITIVE, MAX_USES_TOO_LARGE)
      && e.expiresInDays == (if TypedCount(v.expiresInDays) && !TypedDays(v.expiresInDays, now, after)
                             then Some(EXPIRES_IN_DAYS_TOO_FAR)
                             else CountMessage(v.expiresInDays, EXPIRES_IN_DAYS_NOT_POSITIVE, EXPIRES_IN_DAYS_TOO_FAR))
      && e.repoScope == ScopeRule(v.selectedRepoIds, available)
  {
    RuleSlots(v, available, now, after);
    TextMessages(v);
    NumberMessages(v, now, after);
    hide Reported, DescriptionRule, NoteRule, PermissionRule, MaxUsesRule, ExpiresRule, ScopeRule, AttachAll,
      Trim, AllWhitespace, ByteLength, CountMessage, TypedDays, TypedCount, ParseMaxUses, ParseExpiresInDays;
  }

  lemma RuleSlots(v: FormValues, available: seq<RepositoryChoice>, now: int, after: Calendar)
    ensures var e, m := Reported(v, available, now, after), ModelOf(v);
      && e.description == DescriptionRule(v.description)
      && e.internalNote == NoteRule(v.internalNote)
      && e.permission == PermissionRule(v.permission)
      && e.maxUses == (match MessageOf(ParseMaxUses(v.maxUses))
                       case Some(message) => Some(message)
                       case None => MaxUsesRule(m.maxUses))
      && e.expiresInDays == (match MessageOf(ParseExpiresInDays(v.expiresInDays))
                             case Some(message) => Some(message)
                             case None => ExpiresRule(m.expiresInDays, now, after))
      && e.repoScope == ScopeRule(v.selectedRepoIds, available)
  {
    hide DescriptionRule, NoteRule, PermissionRule, MaxUsesRule, ExpiresRule, ScopeRule, AttachAll, Filled, ParseProblems,
      MessageOf, ParseMaxUses, ParseExpiresInDays, HasRawNumeric;
    ParsingReports(v);
    forall g: Field | Slotted(g) ensures RuleSlot(v, available, now, after, g) {
      var m := ModelOf(v);
      SlotsAfterRules(AttachAll(Default, ParseProblems(v)), DescriptionRule(m.description), NoteRule(m.internalNote),
                      PermissionRule(m.permission), MaxUsesRule(m.maxUses), ExpiresRule(m.expiresInDays, now, after),
                      ScopeRule(m.repoIds, available), g);
    }
    hide Reported;
    assert RuleSlot(v, available, now, after, Description) && RuleSlot(v, available, now, after, InternalNote);
    assert RuleSlot(v, available, now, after, Permission) && RuleSlot(v, available, now, after, MaxUses);
    assert RuleSlot(v, available, now, after, ExpiresInDays) && RuleSlot(v, available, now, after, RepoIds);
  }

  /** A slot holds what parsing said of its field, or else what the field's rule says. */
  ghost predicate RuleSlot(v: FormValues, available: seq<RepositoryChoice>, now: int, after: Calendar, g: Field)
    requires Slotted(g)
  {
    var m, parsed := ModelOf(v), AttachAll(Default, ParseProblems(v));
    Slot(Reported(v, available, now, after), g)
      == if Slot(parsed, g).Some? then Slot(parsed, g)
         else match g
              case Description => DescriptionRule(m.description)
              case InternalNote => NoteRule(m.internalNote)
              case Permission => PermissionRule(m.permission)
              case MaxUses => MaxUsesRule(m.maxUses)
              case ExpiresInDays => ExpiresRule(m.expiresInDays, now, after)
              case RepoIds => ScopeRule(m.repoIds, available)
  }

  lemma TextMessages(v: FormValues)
    ensures DescriptionRule(v.description)
         == if AllWhitespace(v.description) then Some(DESCRIPTION_REQUIRED)
            else if '\n' in v.description || '\r' in v.description then Some(DESCRIPTION_SINGLE_LINE)
            else if |Trim(v.description)| > 120 then Some(DESCRIPTION_TOO_LONG)
            else None
    ensures NoteRule(v.internalNote)
         == if ByteLength(Trim(v.internalNote)) > 16384 then Some(INTERNAL_NOTE_TOO_LONG) else None
    ensures PermissionRule(v.permission)
         == if v.permission in {"pull", "triage", "push", "maintain", "admin"} then None else Some(PERMISSION_UNSUPPORTED)
  {
    hide Trim, AllWhitespace, ByteLength;
    TrimIsEmptyIff(v.description);
    I.LineBreaks(v.description);
  }

  lemma NumberMessages(v: FormValues, now: int, after: Calendar)
    ensures (match MessageOf(ParseMaxUses(v.maxUses))
             case Some(message) => Some(message)
             case None => MaxUsesRule(ModelOf(v).maxUses))
         == CountMessage(v.maxUses, MAX_USES_NOT_POSITIVE, MAX_USES_TOO_LARGE)
    ensures (match MessageOf(ParseExpiresInDays(v.expiresInDays))
             case Some(message) => Some(message)
             case None => ExpiresRule(ModelOf(v).expiresInDays, now, after))
         == if TypedCount(v.expiresInDays) && !TypedDays(v.expiresInDays, now, after) then Some(EXPIRES_IN_DAYS_TOO_FAR)
            else CountMessage(v.expiresInDays, EXPIRES_IN_DAYS_NOT_POSITIVE, EXPIRES_IN_DAYS_TOO_FAR)
  {
    hide ParseOptionalCount, Trim, AllWhitespace, AllDigits, Value;
    CountExactly(v.maxUses, MAX_USES_NOT_POSITIVE, MAX_USES_TOO_LARGE);
    CountExactly(v.expiresInDays, EXPIRES_IN_DAYS_NOT_POSITIVE, EXPIRES_IN_DAYS_TOO_FAR);
  }

  /** What is said of the repositories: which are gone while others remain, or why there is no scope. */
  lemma ScopeMessageExactly(selected: seq<nat>, available: seq<RepositoryChoice>)
    ensures var offered := exists i :: Chosen(selected, available, i);
      var gone := MissingIds(selected, available) != [];
      ScopeRule(selected, available) ==
        if offered && gone then MissingRepositoryNotice(selected, available)
        else if !offered then Some(REPO_SCOPE_REQUIRED)
        else if Selectable(selected, available) then None
        else if |RepositoryScope(selected, available)| > 100 then Some(REPO_SCOPE_TOO_MANY)
        else Some(REPO_SCOPE_UNUSABLE)
  {
    hide RepositoryScope, MissingIds, Selectable, Chosen;
    ScopeRuleExactly(selected, available);
    SomethingChosen(selected, available);
  }

  lemma {:induction false} IdsInNumerals(ids: seq<nat>, k: nat)
    requires k < |ids|
    ensures |PrintIds(ids)| == |ids| && PrintIds(ids)[k] == Decimal.Print(ids[k])
  {
    hide Decimal.Print;
    if |ids| > 1 {
      IdsInNumerals(ids[1..], if k == 0 then 0 else k - 1);
    }
  }

  /** The notice is a sentence around the numerals of what is missing; without anything missing there is none. */
  lemma NoticeExactly(selected: seq<nat>, available: seq<RepositoryChoice>, numerals: seq<string>)
    requires var missing := MissingIds(selected, available);
      |numerals| == |missing| && forall k :: 0 <= k < |missing| ==> numerals[k] == Decimal.Print(missing[k])
    ensures MissingRepositoryNotice(selected, available) ==
      if numerals == [] then None
      else Some("Selected repositories are no longer available: " + Join(numerals, ", ")
                + ". Review the remaining scope before creating the invitation link.")
  {
    hide Decimal.Print, MissingIds, Join;
    var missing := MissingIds(selected, available);
    forall k | 0 <= k < |missing| ensures |PrintIds(missing)| == |missing| && PrintIds(missing)[k] == numerals[k] {
      IdsInNumerals(missing, k);
    }
    assert missing != [] ==> PrintIds(missing) == numerals;
  }

  /** Should the rules and the derivations ever drift apart, nothing is created and one line says why: also without a
    * single error, a model needs texts, a permission, a limit other than zero, a representable day and a scope. */
  lemma DriftFailsClosed(m: FormModel, errors: Errors, available: seq<RepositoryChoice>, now: int, after: Calendar)
    requires IsEmpty(errors)
    ensures var r := Finish(m, errors, available, now, after);
      && (r.Err? <==>
            || !(1 <= |Trim(m.description)| <= 120 && '\n' !in m.description && '\r' !in m.description)
            || ByteLength(Trim(m.internalNote)) > 16384
            || m.permission !in {"pull", "triage", "push", "maintain", "admin"}
            || m.maxUses == Some(0)
            || (m.expiresInDays.Some? && after(now, m.expiresInDays.value).None?)
            || I.ParseScope(RepositoryScope(m.repoIds, available)).Err?)
      && (r.Err? ==> r.error.summary == [CREATION_VALUES_UNCHECKED]
                     && forall f :: Slotted(f) ==> Slot(r.error, f) == Slot(errors, f))
  {
    hide Trim, ByteLength, RepositoryScope, I.ParseScope;
    TrimIsEmptyIff(m.description);
    I.LineBreaks(m.description);
  }

  lemma SomethingChosen(selected: seq<nat>, available: seq<RepositoryChoice>)
    ensures RepositoryScope(selected, available) != [] <==> exists i :: Chosen(selected, available, i)
  {
    var scope := RepositoryScope(selected, available);
    hide RepositoryScope;
    if scope != [] {
      assert scope[0] in scope;
      ScopeHoldsChoices(selected, available, scope[0]);
    }
    if i :| Chosen(selected, available, i) {
      ScopeHoldsChoices(selected, available, I.Repo(available[i].id, available[i].fullName));
    }
  }
}
