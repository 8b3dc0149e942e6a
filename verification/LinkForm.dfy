/** The new invitation link form: typed text to model, rules over the model, model to creation data. */
module LinkForm {
  import opened Wrappers
  import opened Text
  import opened Decimal
  import opened LinkFormErrors
  import I = InvitationLinks

  const U32_MAX: nat := 0xFFFF_FFFF

  const DESCRIPTION_REQUIRED := "Description is required. Use short, single-line admin-only context for this invitation link."
  const DESCRIPTION_SINGLE_LINE := "Description must be a single line."
  const DESCRIPTION_TOO_LONG := "Description must be 120 characters or fewer."
  const INTERNAL_NOTE_TOO_LONG := "Internal note must be 16384 UTF-8 bytes or fewer."
  const PERMISSION_UNSUPPORTED := "Choose a supported permission level: pull, triage, push, maintain, or admin."
  const MAX_USES_NOT_POSITIVE := "Max use must be a whole number of 1 or more."
  const MAX_USES_TOO_LARGE := "Max use is too large. Use a smaller number, or leave it blank for unlimited invitation requests."
  const EXPIRES_IN_DAYS_NOT_POSITIVE := "Expiration must be a whole number of days, 1 or more."
  const EXPIRES_IN_DAYS_TOO_FAR := "Expiration is too far in the future. Use fewer days, or leave it blank for no expiration."
  const REPO_SCOPE_REQUIRED := "Repository scope is required. Select at least one available repository for this invitation link."
  const REPO_SCOPE_TOO_MANY := "Repository scope is limited to 100 repositories. Select fewer repositories, or create another invitation link for the rest."
  const REPO_SCOPE_UNUSABLE := "GitHub returned repository details that cannot be used in a repository scope. Reload the repositories, then try again."
  const CREATION_VALUES_UNCHECKED := "The invitation link could not be created from these values. Try again, and report the problem if it keeps happening."

  // --- numeric guardrails -------------------------------------------------------

  function ParseOptionalCount(raw: string, notPositive: string, tooLarge: string): Result<Option<nat>, string> {
    var typed := Trim(raw);
    if typed == [] then Ok(None)
    else if !AllDigits(typed) then Err(notPositive)
    else
      match Checked(typed, U32_MAX)
      case Some(0) => Err(notPositive)
      case Some(count) => Ok(Some(count))
      case None => Err(tooLarge)
  }

  function ParseMaxUses(raw: string): Result<Option<nat>, string> {
    ParseOptionalCount(raw, MAX_USES_NOT_POSITIVE, MAX_USES_TOO_LARGE)
  }

  function ParseExpiresInDays(raw: string): Result<Option<nat>, string> {
    ParseOptionalCount(raw, EXPIRES_IN_DAYS_NOT_POSITIVE, EXPIRES_IN_DAYS_TOO_FAR)
  }

  /** Which typed text means which number, for every string. */
  lemma CountOutcome(raw: string, notPositive: string, tooLarge: string, n: nat)
    requires notPositive != tooLarge
    ensures var typed, r := Trim(raw), ParseOptionalCount(raw, notPositive, tooLarge);
      && (r == Ok(None) <==> AllWhitespace(raw))
      && (r == Ok(Some(n)) <==> typed != [] && AllDigits(typed) && Value(typed) == n && 1 <= n <= U32_MAX)
      && (r == Err(tooLarge) <==> AllDigits(typed) && Value(typed) > U32_MAX)
      && (r == Err(notPositive) <==> typed != [] && (AllDigits(typed) ==> Value(typed) == 0))
  {
    TrimIsEmptyIff(raw);
  }

  function FormatCount(value: Option<nat>): string {
    match value
    case None => []
    case Some(count) => Print(count)
  }

  lemma NumeralIsTrimmed(s: string)
    requires AllDigits(s)
    ensures Trim(s) == s
  {
    TrimOfTrimmed(s);
  }

  /** A formatted guardrail reads back as itself, except zero, which the form never holds. */
  lemma FormattedReadsBack(value: Option<nat>, notPositive: string, tooLarge: string)
    requires value.Some? ==> value.value <= U32_MAX
    ensures ParseOptionalCount(FormatCount(value), notPositive, tooLarge) == Ok(value) <==> value != Some(0)
  {
    match value {
      case None =>
      case Some(count) =>
        NumeralIsTrimmed(Print(count));
        ValueOfPrint(count);
    }
  }

  // --- typed values to the model ------------------------------------------------

  datatype FormValues = FormValues(
    description: string,
    permission: string,
    approvalRequired: bool,
    maxUses: string,
    expiresInDays: string,
    internalNote: string,
    selectedRepoIds: seq<nat>)

  datatype FormModel = FormModel(
    description: string,
    internalNote: string,
    permission: string,
    approvalRequired: bool,
    maxUses: Option<nat>,
    expiresInDays: Option<nat>,
    repoIds: seq<nat>)

  /** A guardrail that fails to parse is blank in the model. */
  function OrBlank(parsed: Result<Option<nat>, string>): Option<nat> {
    match parsed
    case Ok(value) => value
    case Err(_) => None
  }

  function Problem(field: Field, parsed: Result<Option<nat>, string>): seq<SubmitError> {
    match parsed
    case Ok(_) => []
    case Err(message) => [SubmitError(Some(field), message)]
  }

  function ModelOf(v: FormValues): FormModel {
    FormModel(v.description, v.internalNote, v.permission, v.approvalRequired,
              OrBlank(ParseMaxUses(v.maxUses)), OrBlank(ParseExpiresInDays(v.expiresInDays)), v.selectedRepoIds)
  }

  function ParseProblems(v: FormValues): seq<SubmitError> {
    Problem(MaxUses, ParseMaxUses(v.maxUses)) + Problem(ExpiresInDays, ParseExpiresInDays(v.expiresInDays))
  }

  method ToModel(v: FormValues) returns (model: FormModel, errors: LinkFormErrors)
    ensures model == ModelOf(v)
    ensures fresh(errors) && errors.State() == AttachAll(Default, ParseProblems(v))
  {
    errors := new LinkFormErrors();
    var uses := ParseMaxUses(v.maxUses);
    if uses.Err? {
      errors.AttachMessage(Some(MaxUses), uses.error);
    }
    var days := ParseExpiresInDays(v.expiresInDays);
    ghost var first := Problem(MaxUses, uses);
    assert errors.State() == AttachAll(Default, first) by {
      if uses.Err? { assert first[..0] == []; }
    }
    AttachAllConcat(Default, first, Problem(ExpiresInDays, days));
    if days.Err? {
      errors.AttachMessage(Some(ExpiresInDays), days.error);
      assert Problem(ExpiresInDays, days)[..0] == [];
    }
    model := FormModel(v.description, v.internalNote, v.permission, v.approvalRequired,
                       OrBlank(uses), OrBlank(days), v.selectedRepoIds);
  }

  /** The island restores raw text for these values. */
  predicate HasRawNumeric(v: FormValues) {
    ParseMaxUses(v.maxUses).Err? || ParseExpiresInDays(v.expiresInDays).Err?
  }

  function MessageOf(parsed: Result<Option<nat>, string>): Option<string> {
    match parsed
    case Ok(_) => None
    case Err(message) => Some(message)
  }

  /**
   * Parsing reports exactly the guardrails the island restores: one message on each that does not
   * parse, nothing else, and nothing at all exactly when no raw text needs restoring.
   */
  lemma ParsingReports(v: FormValues)
    ensures AttachAll(Default, ParseProblems(v)) ==
      Default.(summary := Line(HasRawNumeric(v)),
               maxUses := MessageOf(ParseMaxUses(v.maxUses)),
               expiresInDays := MessageOf(ParseExpiresInDays(v.expiresInDays)))
    ensures IsEmpty(AttachAll(Default, ParseProblems(v))) <==> !HasRawNumeric(v)
  {
    var uses, days := ParseMaxUses(v.maxUses), ParseExpiresInDays(v.expiresInDays);
    hide ParseMaxUses, ParseExpiresInDays;
    var first, second := Problem(MaxUses, uses), Problem(ExpiresInDays, days);
    AttachAllConcat(Default, first, second);
    if uses.Err? { assert first[..0] == []; }
    if days.Err? { assert second[..0] == []; }
  }

  // --- the rules ----------------------------------------------------------------

  /** One of the account's available repositories, as the form offers it. */
  datatype RepositoryChoice = RepositoryChoice(id: nat, fullName: string)

  predicate Offers(available: seq<RepositoryChoice>, id: nat) {
    exists i :: 0 <= i < |available| && available[i].id == id
  }

  function MissingIds(selected: seq<nat>, available: seq<RepositoryChoice>): (missing: seq<nat>)
    ensures forall id :: id in missing <==> id in selected && !Offers(available, id)
  {
    if selected == [] then []
    else
      var rest := MissingIds(selected[1..], available);
      assert selected == [selected[0]] + selected[1..];
      if Offers(available, selected[0]) then rest else [selected[0]] + rest
  }

  /** The notice names the missing selections in the order and as often as they were selected: what is named of a
    * list is what is named of its parts, one after the other. */
  lemma {:induction false} MissingInOrder(a: seq<nat>, b: seq<nat>, available: seq<RepositoryChoice>)
    ensures MissingIds(a + b, available) == MissingIds(a, available) + MissingIds(b, available)
  {
    hide Offers;
    if a == [] {
      assert a + b == b;
    } else {
      MissingInOrder(a[1..], b, available);
      var whole := a + b;
      assert whole[1..] == a[1..] + b && whole[0] == a[0];
      assert MissingIds(whole, available)
          == if Offers(available, whole[0]) then MissingIds(whole[1..], available)
             else [whole[0]] + MissingIds(whole[1..], available);
    }
  }

  lemma MissingAlone(id: nat, available: seq<RepositoryChoice>)
    ensures MissingIds([id], available) == if Offers(available, id) then [] else [id]
  {
    hide Offers;
    assert [id][1..] == [] && MissingIds([], available) == [];
  }

  function PrintIds(ids: seq<nat>): seq<string> {
    if ids == [] then [] else [Print(ids[0])] + PrintIds(ids[1..])
  }

  function MissingRepositoryNotice(selected: seq<nat>, available: seq<RepositoryChoice>): Option<string> {
    var missing := MissingIds(selected, available);
    if missing == [] then None
    else Some("Selected repositories are no longer available: " + Join(PrintIds(missing), ", ")
              + ". Review the remaining scope before creating the invitation link.")
  }

  /** The available repositories that were selected, in available order. */
  function RepositoryScope(selected: seq<nat>, available: seq<RepositoryChoice>): (scope: seq<I.Repo>)
    ensures forall r :: r in scope ==> r.id in selected
    ensures forall id :: id in selected && Offers(available, id) ==> exists r :: r in scope && r.id == id
  {
    if available == [] then []
    else
      var rest := RepositoryScope(selected, available[1..]);
      assert forall i :: 0 < i < |available| ==> available[i] == available[1..][i - 1];
      var scope := if available[0].id in selected then [I.Repo(available[0].id, available[0].fullName)] + rest else rest;
      assert forall id :: id in selected && Offers(available, id) ==> exists r :: r in scope && r.id == id by {
        forall id | id in selected && Offers(available, id) ensures exists r :: r in scope && r.id == id {
          if available[0].id == id {
            assert scope[0].id == id;
          } else {
            assert Offers(available[1..], id);
            var r :| r in rest && r.id == id;
            assert r in scope;
          }
        }
      }
      scope
  }

  function DescriptionMessage(e: I.DescriptionError): string {
    match e
    case Required => DESCRIPTION_REQUIRED
    case MultiLine => DESCRIPTION_SINGLE_LINE
    case TooLong => DESCRIPTION_TOO_LONG
  }

  function DescriptionRule(raw: string): Option<string> {
    match I.ParseDescription(raw)
    case Ok(_) => None
    case Err(e) => Some(DescriptionMessage(e))
  }

  function NoteRule(raw: string): Option<string> {
    if I.ParseInternalNote(raw).Ok? then None else Some(INTERNAL_NOTE_TOO_LONG)
  }

  function ParsePermission(s: string): Option<I.Permission> {
    if s == "pull" then Some(I.Pull)
    else if s == "triage" then Some(I.Triage)
    else if s == "push" then Some(I.Push)
    else if s == "maintain" then Some(I.Maintain)
    else if s == "admin" then Some(I.Admin)
    else None
  }

  function PermissionRule(s: string): Option<string> {
    if ParsePermission(s).Some? then None else Some(PERMISSION_UNSUPPORTED)
  }

  function MaxUsesRule(value: Option<nat>): Option<string> {
    if value == Some(0) then Some(MAX_USES_NOT_POSITIVE) else None
  }

  /** `now` advanced by a number of days, when the calendar can represent it. */
  type Calendar = (int, nat) -> Option<int>

  function ExpiresRule(value: Option<nat>, now: int, after: Calendar): Option<string> {
    match value
    case None => None
    case Some(days) =>
      if days == 0 then Some(EXPIRES_IN_DAYS_NOT_POSITIVE)
      else if after(now, days).None? then Some(EXPIRES_IN_DAYS_TOO_FAR)
      else None
  }

  function ScopeRule(selected: seq<nat>, available: seq<RepositoryChoice>): Option<string> {
    var notice := MissingRepositoryNotice(selected, available);
    var scope := RepositoryScope(selected, available);
    if notice.Some? && scope != [] then notice
    else
      match I.ParseScope(scope)
      case Ok(_) => None
      case Err(Empty) => Some(REPO_SCOPE_REQUIRED)
      case Err(TooMany) => Some(REPO_SCOPE_TOO_MANY)
      case Err(_) => Some(REPO_SCOPE_UNUSABLE)
  }

  /** The registered validators, in form order; each reports at most one message on its field. */
  function Validate(m: FormModel, available: seq<RepositoryChoice>, now: int, after: Calendar): seq<SubmitError> {
    Filled(Description, DescriptionRule(m.description))
    + Filled(InternalNote, NoteRule(m.internalNote))
    + Filled(Permission, PermissionRule(m.permission))
    + Filled(MaxUses, MaxUsesRule(m.maxUses))
    + Filled(ExpiresInDays, ExpiresRule(m.expiresInDays, now, after))
    + Filled(RepoIds, ScopeRule(m.repoIds, available))
  }

  /** No validator has anything to report. */
  predicate PassesEveryRule(m: FormModel, available: seq<RepositoryChoice>, now: int, after: Calendar) {
    && DescriptionRule(m.description).None?
    && NoteRule(m.internalNote).None?
    && PermissionRule(m.permission).None?
    && MaxUsesRule(m.maxUses).None?
    && ExpiresRule(m.expiresInDays, now, after).None?
    && ScopeRule(m.repoIds, available).None?
  }

  // --- from the model to creation data ------------------------------------------

  datatype Validated = Validated(
    description: string,
    internalNote: Option<string>,
    permission: I.Permission,
    approvalRequired: bool,
    maxUses: Option<nat>,
    expiresAt: Option<int>,
    repos: seq<I.Repo>)

  function ExpiresAt(value: Option<nat>, now: int, after: Calendar): Option<Option<int>> {
    match value
    case None => Some(None)
    case Some(days) => if after(now, days).Some? then Some(after(now, days)) else None
  }

  /**
   * `finish`: the creation data of a model, or its errors. When the derivations fail although no
   * rule did, the form fails closed with a message of its own.
   */
  function Finish(m: FormModel, errors: Errors, available: seq<RepositoryChoice>, now: int, after: Calendar)
    : Result<Validated, Errors>
  {
    if !IsEmpty(errors) then Err(errors)
    else
      var description := I.ParseDescription(m.description);
      var note := I.ParseInternalNote(m.internalNote);
      var permission := ParsePermission(m.permission);
      var expiresAt := ExpiresAt(m.expiresInDays, now, after);
      var repos := I.ParseScope(RepositoryScope(m.repoIds, available));
      if description.Ok? && note.Ok? && permission.Some? && m.maxUses != Some(0) && expiresAt.Some? && repos.Ok? then
        Ok(Validated(description.value, note.value, permission.value, m.approvalRequired,
                     m.maxUses, expiresAt.value, repos.value))
      else Err(errors.(summary := [CREATION_VALUES_UNCHECKED]))
  }

  /** Everything a submission reports: what does not parse, then what breaks a rule. */
  function Reported(v: FormValues, available: seq<RepositoryChoice>, now: int, after: Calendar): Errors {
    AttachAll(AttachAll(Default, ParseProblems(v)), Validate(ModelOf(v), available, now, after))
  }

  function Submit(v: FormValues, available: seq<RepositoryChoice>, now: int, after: Calendar)
    : Result<Validated, Errors>
  {
    Finish(ModelOf(v), Reported(v, available, now, after), available, now, after)
  }

  /** Validating a submission as the server does: one error object, filled in order. */
  method SubmitForm(v: FormValues, available: seq<RepositoryChoice>, now: int, after: Calendar)
    returns (r: Result<Validated, Errors>)
    ensures r == Submit(v, available, now, after)
  {
    hide ModelOf, ParseProblems, Validate, Finish, Attach;
    var model, errors := ToModel(v);
    var problems := Validate(model, available, now, after);
    ghost var start := errors.State();
    for i := 0 to |problems|
      invariant errors.State() == AttachAll(start, problems[..i])
    {
      assert problems[..i + 1][..i] == problems[..i];
      errors.AttachMessage(problems[i].field, problems[i].message);
    }
    assert problems[..|problems|] == problems;
    r := Finish(model, errors.State(), available, now, after);
  }

  lemma {:induction false} AttachingReports(e: Errors, submit: seq<SubmitError>)
    ensures IsEmpty(AttachAll(e, submit)) <==> IsEmpty(e) && submit == []
  {
    if submit != [] {
      var last := submit[|submit| - 1];
      SummaryAfterAttach(AttachAll(e, submit[..|submit| - 1]), last.field, last.message);
    }
  }

  lemma SummaryAfterAttach(e: Errors, field: Option<Field>, message: string)
    ensures Attach(e, field, message).summary != []
  {
  }

  /** A submission reports nothing exactly when every guardrail parses and every rule passes. */
  lemma ReportsNothingIff(v: FormValues, available: seq<RepositoryChoice>, now: int, after: Calendar)
    ensures IsEmpty(Reported(v, available, now, after)) <==>
      !HasRawNumeric(v) && PassesEveryRule(ModelOf(v), available, now, after)
  {
    var m := ModelOf(v);
    ParsingReports(v);
    AttachingReports(AttachAll(Default, ParseProblems(v)), Validate(m, available, now, after));
    hide DescriptionRule, NoteRule, PermissionRule, MaxUsesRule, ExpiresRule, ScopeRule, ModelOf, HasRawNumeric;
    NoProblems(DescriptionRule(m.description), NoteRule(m.internalNote), PermissionRule(m.permission),
               MaxUsesRule(m.maxUses), ExpiresRule(m.expiresInDays, now, after), ScopeRule(m.repoIds, available));
  }

  lemma NoProblems(a: Option<string>, b: Option<string>, c: Option<string>,
                   d: Option<string>, e: Option<string>, f: Option<string>)
    ensures Filled(Description, a) + Filled(InternalNote, b) + Filled(Permission, c)
            + Filled(MaxUses, d) + Filled(ExpiresInDays, e) + Filled(RepoIds, f) == []
       <==> a.None? && b.None? && c.None? && d.None? && e.None? && f.None?
  {
    assert |Filled(Description, a) + Filled(InternalNote, b) + Filled(Permission, c)
            + Filled(MaxUses, d) + Filled(ExpiresInDays, e) + Filled(RepoIds, f)|
      == |Filled(Description, a)| + |Filled(InternalNote, b)| + |Filled(Permission, c)|
         + |Filled(MaxUses, d)| + |Filled(ExpiresInDays, e)| + |Filled(RepoIds, f)|;
  }

  /** A guardrail that does not parse is not reported a second time by its validator. */
  lemma NotReportedTwice(v: FormValues, now: int, after: Calendar)
    ensures ParseMaxUses(v.maxUses).Err? ==> MaxUsesRule(ModelOf(v).maxUses).None?
    ensures ParseExpiresInDays(v.expiresInDays).Err? ==> ExpiresRule(ModelOf(v).expiresInDays, now, after).None?
  {
  }

  /** The rules and the derivations cannot drift apart: what passes every rule can be derived. */
  lemma RulesImplyDerivations(m: FormModel, available: seq<RepositoryChoice>, now: int, after: Calendar)
    requires PassesEveryRule(m, available, now, after)
    ensures Finish(m, Default, available, now, after).Ok?
  {
    hide I.ParseDescription, I.ParseInternalNote, I.ParseScope, RepositoryScope, MissingRepositoryNotice;
  }

  /**
   * A submission is accepted exactly when every guardrail parses and every rule passes; otherwise it
   * returns exactly what was reported. The fail-closed message never appears.
   */
  lemma SubmitOutcome(v: FormValues, available: seq<RepositoryChoice>, now: int, after: Calendar)
    ensures Submit(v, available, now, after).Ok? <==>
      !HasRawNumeric(v) && PassesEveryRule(ModelOf(v), available, now, after)
    ensures Submit(v, available, now, after).Err? ==>
      Submit(v, available, now, after) == Err(Reported(v, available, now, after))
  {
    ReportsNothingIff(v, available, now, after);
    var reported := Reported(v, available, now, after);
    if IsEmpty(reported) {
      EmptyIsDefault(reported);
      RulesImplyDerivations(ModelOf(v), available, now, after);
    }
  }

  lemma EmptyIsDefault(e: Errors)
    requires IsEmpty(e)
    ensures e == Default
  {
  }

  // --- from creation data to core -----------------------------------------------

  function IntoCommand(d: Validated, linkId: nat, admin: I.AccountAdmin, accountId: nat, installationId: nat)
    : I.CreateLink
  {
    I.CreateLink(linkId, admin, accountId, installationId, d.description, d.internalNote,
                 d.expiresAt, d.maxUses, d.permission, d.approvalRequired, d.repos)
  }

  /** Every selected repository is available, and the scope holds exactly the selected ids. */
  lemma {:induction false} ScopeIsSelection(selected: seq<nat>, available: seq<RepositoryChoice>, id: nat)
    requires ScopeRule(selected, available).None?
    ensures I.ParseScope(RepositoryScope(selected, available)).Ok?
    ensures (exists r :: r in I.ParseScope(RepositoryScope(selected, available)).value && r.id == id)
       <==> id in selected
  {
    hide I.ParseScope, RepositoryScope, Offers, MissingIds;
    ScopeRulePasses(selected, available);
    var scope := RepositoryScope(selected, available);
    I.AcceptedScope(scope);
    SameMembers(I.ParseScope(scope).value, scope);
    if id in selected {
      assert id !in MissingIds(selected, available);
      var r :| r in scope && r.id == id;
      assert r in I.ParseScope(scope).value;
    }
  }

  /** The rule passes only when nothing selected is missing and core accepts the scope. */
  lemma ScopeRulePasses(selected: seq<nat>, available: seq<RepositoryChoice>)
    requires ScopeRule(selected, available).None?
    ensures I.ParseScope(RepositoryScope(selected, available)).Ok?
    ensures MissingIds(selected, available) == []
  {
    hide RepositoryScope, MissingIds;
  }

  lemma SameMembers(a: seq<I.Repo>, b: seq<I.Repo>)
    requires multiset(a) == multiset(b)
    ensures forall r :: r in a <==> r in b
  {
    forall r ensures r in a <==> r in b {
      assert r in multiset(a) <==> r in multiset(b);
    }
  }

  /**
   * An accepted submission is creation data core accepts as it stands, for any existing
   * installation: the command is already in its normal form, and its scope is the selection.
   */
  lemma AcceptedIsNormal(v: FormValues, available: seq<RepositoryChoice>, now: int, after: Calendar,
                         linkId: nat, admin: I.AccountAdmin, accountId: nat, installationId: nat)
    requires Submit(v, available, now, after).Ok?
    requires installationId != 0
    ensures var c := IntoCommand(Submit(v, available, now, after).value, linkId, admin, accountId, installationId);
      && I.Normalized(c) == Ok(c)
      && I.AscendingIds(c.repos) && 1 <= |c.repos| <= 100
      && (forall id :: (exists r :: r in c.repos && r.id == id) <==> id in v.selectedRepoIds)
  {
    SubmitOutcome(v, available, now, after);
    ReportsNothingIff(v, available, now, after);
    var m := ModelOf(v);
    var c := IntoCommand(Submit(v, available, now, after).value, linkId, admin, accountId, installationId);
    I.DescriptionParses(m.description);
    I.NoteParses(m.internalNote);
    I.AcceptedScope(RepositoryScope(m.repoIds, available));
    I.NormalFormsAreFixed(c);
    forall id ensures (exists r :: r in c.repos && r.id == id) <==> id in v.selectedRepoIds {
      ScopeIsSelection(m.repoIds, available, id);
    }
  }
}
