/** The error slots and summary of the new invitation link form, and their rebuilding in the browser. */
module LinkFormErrors {
  import opened Wrappers

  const SUMMARY_MESSAGE: string := "Fix the highlighted fields before creating this invitation link."

  /** The identities of the form's fields. */
  datatype Field = Description | InternalNote | Permission | ApprovalRequired | MaxUses | ExpiresInDays | RepoIds

  /** Every field but the checkbox has a message slot of its own. */
  predicate Slotted(f: Field) {
    !f.ApprovalRequired?
  }

  /** The value of a `LinkFormErrors`. */
  datatype Errors = Errors(
    summary: seq<string>,
    description: Option<string>,
    internalNote: Option<string>,
    permission: Option<string>,
    maxUses: Option<string>,
    expiresInDays: Option<string>,
    repoScope: Option<string>)

  const Default: Errors := Errors([], None, None, None, None, None, None)

  function Slot(e: Errors, f: Field): Option<string>
    requires Slotted(f)
  {
    match f
    case Description => e.description
    case InternalNote => e.internalNote
    case Permission => e.permission
    case MaxUses => e.maxUses
    case ExpiresInDays => e.expiresInDays
    case RepoIds => e.repoScope
  }

  function WithSlot(e: Errors, f: Field, message: Option<string>): Errors
    requires Slotted(f)
  {
    match f
    case Description => e.(description := message)
    case InternalNote => e.(internalNote := message)
    case Permission => e.(permission := message)
    case MaxUses => e.(maxUses := message)
    case ExpiresInDays => e.(expiresInDays := message)
    case RepoIds => e.(repoScope := message)
  }

  /** No two fields share a slot, and filling a slot leaves the summary alone. */
  lemma SlotsAreSeparate(e: Errors, f: Field, g: Field, message: Option<string>)
    requires Slotted(f) && Slotted(g)
    ensures Slot(WithSlot(e, f, message), g) == (if f == g then message else Slot(e, g))
    ensures WithSlot(e, f, message).summary == e.summary
    ensures WithSlot(e, f, Slot(e, f)) == e
  {
  }

  predicate HasFieldMessage(e: Errors) {
    || e.description.Some? || e.internalNote.Some? || e.permission.Some?
    || e.maxUses.Some? || e.expiresInDays.Some? || e.repoScope.Some?
  }

  predicate IsEmpty(e: Errors) {
    e.summary == [] && !HasFieldMessage(e)
  }

  function Summarised(e: Errors): Errors {
    if e.summary == [] then e.(summary := [SUMMARY_MESSAGE]) else e
  }

  function Attach(e: Errors, field: Option<Field>, message: string): Errors {
    var s := Summarised(e);
    if field.Some? && Slotted(field.value) then
      if Slot(s, field.value).None? then WithSlot(s, field.value, Some(message)) else s
    else s.(summary := s.summary + [message])
  }

  function Retire(e: Errors, field: Field): Errors {
    var s := if Slotted(field) then WithSlot(e, field, None) else e;
    if !HasFieldMessage(s) && s.summary == [SUMMARY_MESSAGE] then s.(summary := []) else s
  }

  /** The errors as the form and the island hold them: slots and a summary updated in place. */
  class LinkFormErrors {
    var summary: seq<string>
    var description: Option<string>
    var internalNote: Option<string>
    var permission: Option<string>
    var maxUses: Option<string>
    var expiresInDays: Option<string>
    var repoScope: Option<string>

    constructor ()
      ensures State() == Default
    {
      summary := [];
      description, internalNote, permission := None, None, None;
      maxUses, expiresInDays, repoScope := None, None, None;
    }

    function State(): Errors
      reads this
    {
      Errors(summary, description, internalNote, permission, maxUses, expiresInDays, repoScope)
    }

    method SetSlot(field: Field, message: Option<string>)
      requires Slotted(field)
      modifies this
      ensures State() == WithSlot(old(State()), field, message)
    {
      match field {
        case Description => description := message;
        case InternalNote => internalNote := message;
        case Permission => permission := message;
        case MaxUses => maxUses := message;
        case ExpiresInDays => expiresInDays := message;
        case RepoIds => repoScope := message;
      }
    }

    method AttachMessage(field: Option<Field>, message: string)
      modifies this
      ensures State() == Attach(old(State()), field, message)
    {
      if summary == [] {
        summary := summary + [SUMMARY_MESSAGE];
      }
      if field.Some? && Slotted(field.value) {
        if Slot(State(), field.value).None? {
          SetSlot(field.value, Some(message));
        }
      } else {
        summary := summary + [message];
      }
    }

    method RetireMessage(field: Field)
      modifies this
      ensures State() == Retire(old(State()), field)
    {
      if Slotted(field) {
        SetSlot(field, None);
      }
      if !HasFieldMessage(State()) && summary == [SUMMARY_MESSAGE] {
        summary := [];
      }
    }
  }

  // --- every run ----------------------------------------------------------------

  datatype Action = Attaching(field: Option<Field>, message: string) | Retiring(retired: Field)

  function Act(e: Errors, a: Action): Errors {
    match a
    case Attaching(field, message) => Attach(e, field, message)
    case Retiring(field) => Retire(e, field)
  }

  function Run(e: Errors, actions: seq<Action>): Errors {
    if actions == [] then e else Act(Run(e, actions[..|actions| - 1]), actions[|actions| - 1])
  }

  /**
   * The summary is empty only when no field has a message, otherwise it starts with the generic
   * line, and the generic line does not stand alone without a highlighted field.
   */
  predicate WellShaped(e: Errors) {
    && (e.summary == [] ==> !HasFieldMessage(e))
    && (e.summary != [] ==> e.summary[0] == SUMMARY_MESSAGE)
    && (|e.summary| == 1 ==> HasFieldMessage(e))
  }

  lemma FilledSlotIsAMessage(e: Errors, f: Field)
    requires Slotted(f) && Slot(e, f).Some?
    ensures HasFieldMessage(e)
  {
  }

  lemma ActKeepsShape(e: Errors, a: Action)
    requires WellShaped(e)
    ensures WellShaped(Act(e, a))
  {
    match a
    case Attaching(field, message) =>
      if field.Some? && Slotted(field.value) {
        var s := Summarised(e);
        FilledSlotIsAMessage(Attach(e, field, message), field.value);
      }
    case Retiring(field) =>
      if Slotted(field) { SlotsAreSeparate(e, field, field, None); }
  }

  lemma {:induction false} RunsAreWellShaped(actions: seq<Action>)
    ensures WellShaped(Run(Default, actions))
  {
    if actions != [] {
      RunsAreWellShaped(actions[..|actions| - 1]);
      ActKeepsShape(Run(Default, actions[..|actions| - 1]), actions[|actions| - 1]);
    }
  }

  /** In every reachable state the summary is empty exactly when nothing has been reported. */
  lemma SummaryTellsAll(actions: seq<Action>)
    ensures var e := Run(Default, actions); e.summary == [] <==> IsEmpty(e)
  {
    RunsAreWellShaped(actions);
  }

  /** The first message attached to a field is the one it keeps. */
  lemma FirstMessageWins(e: Errors, f: Field, first: string, second: string)
    requires Slotted(f)
    ensures Attach(Attach(e, Some(f), first), Some(f), second) == Attach(e, Some(f), first)
  {
    SlotsAreSeparate(Summarised(e), f, f, Some(first));
  }

  lemma AttachThenClear(e: Errors, f: Field, message: string)
    requires Slotted(f) && Slot(e, f).None?
    ensures WithSlot(Attach(e, Some(f), message), f, None) == Summarised(e)
  {
  }

  /**
   * Retiring a freshly filled slot restores the state, unless the state has a field message under an
   * empty summary or the generic line without a field message. No run reaches either.
   */
  lemma RetireUndoesAttach(e: Errors, f: Field, message: string)
    requires Slotted(f) && Slot(e, f).None?
    ensures Retire(Attach(e, Some(f), message), f) == e <==>
      && (e.summary == [] ==> !HasFieldMessage(e))
      && (e.summary == [SUMMARY_MESSAGE] ==> HasFieldMessage(e))
  {
    AttachThenClear(e, f, message);
  }

  lemma RetireUndoesAttachOnRuns(actions: seq<Action>, f: Field, message: string)
    requires Slotted(f) && Slot(Run(Default, actions), f).None?
    ensures Run(Default, actions + [Attaching(Some(f), message), Retiring(f)]) == Run(Default, actions)
  {
    var e := Run(Default, actions);
    RunsAreWellShaped(actions);
    RetireUndoesAttach(e, f, message);
    var longer := actions + [Attaching(Some(f), message)];
    assert longer[..|actions|] == actions;
    var all := actions + [Attaching(Some(f), message), Retiring(f)];
    assert all[..|longer|] == longer;
  }

  // --- across the crate boundary ------------------------------------------------

  /** A dioform submit error: on a field path, or form-level. */
  datatype SubmitError = SubmitError(field: Option<Field>, message: string)

  function Filled(f: Field, message: Option<string>): seq<SubmitError> {
    match message
    case None => []
    case Some(m) => [SubmitError(Some(f), m)]
  }

  function SlotErrors(e: Errors): seq<SubmitError> {
    Filled(Description, e.description) + Filled(InternalNote, e.internalNote)
    + Filled(Permission, e.permission) + Filled(MaxUses, e.maxUses)
    + Filled(ExpiresInDays, e.expiresInDays) + Filled(RepoIds, e.repoScope)
  }

  /** Summary lines other than the generic one. */
  function OtherLines(summary: seq<string>): (lines: seq<string>)
    ensures SUMMARY_MESSAGE !in lines
    ensures SUMMARY_MESSAGE !in summary <==> lines == summary
    ensures |lines| <= |summary|
  {
    if summary == [] then []
    else
      assert summary == [summary[0]] + summary[1..];
      if summary[0] == SUMMARY_MESSAGE then OtherLines(summary[1..])
      else [summary[0]] + OtherLines(summary[1..])
  }

  function FormErrors(lines: seq<string>): seq<SubmitError> {
    if lines == [] then [] else FormErrors(lines[..|lines| - 1]) + [SubmitError(None, lines[|lines| - 1])]
  }

  function SubmitErrors(e: Errors): seq<SubmitError> {
    SlotErrors(e) + FormErrors(OtherLines(e.summary))
  }

  lemma {:induction false} OtherLinesSnoc(summary: seq<string>, line: string)
    ensures OtherLines(summary + [line]) == OtherLines(summary) + (if line == SUMMARY_MESSAGE then [] else [line])
  {
    if summary == [] {
      assert summary + [line] == [line] && [line][1..] == [];
    } else {
      assert (summary + [line])[1..] == summary[1..] + [line];
      OtherLinesSnoc(summary[1..], line);
    }
  }

  method PushFilled(submit: seq<SubmitError>, f: Field, message: Option<string>) returns (pushed: seq<SubmitError>)
    ensures pushed == submit + Filled(f, message)
  {
    pushed := submit;
    if message.Some? {
      pushed := pushed + [SubmitError(Some(f), message.value)];
    }
  }

  method PushOtherLines(submit: seq<SubmitError>, summary: seq<string>) returns (pushed: seq<SubmitError>)
    ensures pushed == submit + FormErrors(OtherLines(summary))
  {
    hide FormErrors, OtherLines;
    pushed := submit;
    ghost var done := [];
    NoLines();
    for i := 0 to |summary|
      invariant done == FormErrors(OtherLines(summary[..i]))
      invariant pushed == submit + done
    {
      LinesSnoc(summary[..i], summary[i]);
      assert summary[..i + 1] == summary[..i] + [summary[i]];
      if summary[i] != SUMMARY_MESSAGE {
        pushed := pushed + [SubmitError(None, summary[i])];
        done := done + [SubmitError(None, summary[i])];
      }
    }
    assert summary[..|summary|] == summary;
  }

  lemma NoLines()
    ensures FormErrors(OtherLines([])) == []
  {
  }

  lemma LinesSnoc(summary: seq<string>, line: string)
    ensures FormErrors(OtherLines(summary + [line]))
         == FormErrors(OtherLines(summary)) + (if line == SUMMARY_MESSAGE then [] else [SubmitError(None, line)])
  {
    OtherLinesSnoc(summary, line);
    if line != SUMMARY_MESSAGE {
      FormErrorsSnoc(OtherLines(summary), line);
    } else {
      assert OtherLines(summary) + [] == OtherLines(summary);
    }
  }

  /** The island's reading of the server's errors. */
  method SubmitErrorsFrom(errors: LinkFormErrors) returns (submit: seq<SubmitError>)
    ensures submit == SubmitErrors(errors.State())
  {
    hide Filled, FormErrors, OtherLines;
    submit := PushFilled([], Description, errors.description);
    assert submit == Filled(Description, errors.description);
    submit := PushFilled(submit, InternalNote, errors.internalNote);
    submit := PushFilled(submit, Permission, errors.permission);
    submit := PushFilled(submit, MaxUses, errors.maxUses);
    submit := PushFilled(submit, ExpiresInDays, errors.expiresInDays);
    submit := PushFilled(submit, RepoIds, errors.repoScope);
    submit := PushOtherLines(submit, errors.summary);
  }

  lemma FormErrorsSnoc(lines: seq<string>, line: string)
    ensures FormErrors(lines + [line]) == FormErrors(lines) + [SubmitError(None, line)]
  {
    assert (lines + [line])[..|lines|] == lines;
  }

  /** Reading submit errors back, in order, into form errors. */
  function AttachAll(e: Errors, submit: seq<SubmitError>): Errors {
    if submit == [] then e
    else
      var last := submit[|submit| - 1];
      Attach(AttachAll(e, submit[..|submit| - 1]), last.field, last.message)
  }

  lemma {:induction false} AttachAllConcat(e: Errors, a: seq<SubmitError>, b: seq<SubmitError>)
    ensures AttachAll(e, a + b) == AttachAll(AttachAll(e, a), b)
  {
    if b == [] {
      assert a + b == a;
    } else {
      assert (a + b)[..|a + b| - 1] == a + b[..|b| - 1];
      AttachAllConcat(e, a, b[..|b| - 1]);
    }
  }

  /** One more slot error read back. */
  lemma AttachFilled(submit: seq<SubmitError>, s: Errors, f: Field, message: Option<string>)
    requires AttachAll(Default, submit) == s
    requires Slotted(f) && Slot(s, f).None?
    ensures AttachAll(Default, submit + Filled(f, message))
         == WithSlot(if message.Some? then Summarised(s) else s, f, message)
  {
    if message.Some? {
      assert (submit + Filled(f, message))[..|submit|] == submit;
    } else {
      assert submit + Filled(f, message) == submit;
    }
  }

  /** The generic line, when something has been reported. */
  function Line(reported: bool): seq<string> {
    if reported then [SUMMARY_MESSAGE] else []
  }

  /** Reading the slot errors back fills exactly the slots, under the generic line. */
  lemma AttachSlotErrors(e: Errors)
    ensures AttachAll(Default, SlotErrors(e)) == e.(summary := Line(HasFieldMessage(e)))
  {
    hide AttachAll, Filled;
    var f1 := Filled(Description, e.description);
    var f2 := f1 + Filled(InternalNote, e.internalNote);
    var f3 := f2 + Filled(Permission, e.permission);
    var f4 := f3 + Filled(MaxUses, e.maxUses);
    var f5 := f4 + Filled(ExpiresInDays, e.expiresInDays);
    var r1 := e.description.Some?;
    var r2 := r1 || e.internalNote.Some?;
    var r3 := r2 || e.permission.Some?;
    var r4 := r3 || e.maxUses.Some?;
    var r5 := r4 || e.expiresInDays.Some?;
    var s1 := Errors(Line(r1), e.description, None, None, None, None, None);
    var s2 := Errors(Line(r2), e.description, e.internalNote, None, None, None, None);
    var s3 := Errors(Line(r3), e.description, e.internalNote, e.permission, None, None, None);
    var s4 := Errors(Line(r4), e.description, e.internalNote, e.permission, e.maxUses, None, None);
    var s5 := Errors(Line(r5), e.description, e.internalNote, e.permission, e.maxUses, e.expiresInDays, None);
    NothingAttached();
    assert [] + f1 == f1;
    AttachFilled([], Default, Description, e.description);
    AttachFilled(f1, s1, InternalNote, e.internalNote);
    AttachFilled(f2, s2, Permission, e.permission);
    AttachFilled(f3, s3, MaxUses, e.maxUses);
    AttachFilled(f4, s4, ExpiresInDays, e.expiresInDays);
    AttachFilled(f5, s5, RepoIds, e.repoScope);
  }

  lemma NothingAttached()
    ensures AttachAll(Default, []) == Default
  {
  }

  lemma {:induction false} AttachFormErrors(e: Errors, lines: seq<string>)
    ensures AttachAll(e, FormErrors(lines))
         == if lines == [] then e else e.(summary := Summarised(e).summary + lines)
  {
    if lines != [] {
      var n := |lines| - 1;
      AttachFormErrors(e, lines[..n]);
      var submit := FormErrors(lines);
      assert submit[..|submit| - 1] == FormErrors(lines[..n]);
      assert lines == lines[..n] + [lines[n]];
    }
  }

  /** What the browser rebuilds from any server errors. */
  lemma Rebuilt(e: Errors)
    ensures AttachAll(Default, SubmitErrors(e))
         == e.(summary := Line(HasFieldMessage(e) || OtherLines(e.summary) != []) + OtherLines(e.summary))
  {
    AttachAllConcat(Default, SlotErrors(e), FormErrors(OtherLines(e.summary)));
    AttachSlotErrors(e);
    AttachFormErrors(AttachAll(Default, SlotErrors(e)), OtherLines(e.summary));
  }

  /**
   * The browser rebuilds the server's errors exactly when they are well shaped and no further
   * summary line repeats the generic one.
   */
  lemma RebuildsExactly(e: Errors)
    ensures AttachAll(Default, SubmitErrors(e)) == e <==>
      WellShaped(e) && (e.summary != [] ==> SUMMARY_MESSAGE !in e.summary[1..])
  {
    Rebuilt(e);
    var lines := OtherLines(e.summary);
    if e.summary != [] {
      assert e.summary == [e.summary[0]] + e.summary[1..];
    }
    if e.summary == [SUMMARY_MESSAGE] + lines {
      assert e.summary[1..] == lines;
    }
  }

  /** The actions that attach these errors one after another. */
  function Attachings(submit: seq<SubmitError>): (actions: seq<Action>)
    ensures |actions| == |submit|
  {
    if submit == [] then []
    else
      var last := submit[|submit| - 1];
      Attachings(submit[..|submit| - 1]) + [Attaching(last.field, last.message)]
  }

  lemma {:induction false} AttachingIsRun(e: Errors, submit: seq<SubmitError>)
    ensures Run(e, Attachings(submit)) == AttachAll(e, submit)
    ensures forall a :: a in Attachings(submit) ==> a.Attaching?
    decreases |submit|
  {
    hide Attach;
    if submit != [] {
      AttachingIsRun(e, submit[..|submit| - 1]);
      assert Attachings(submit)[..|submit| - 1] == Attachings(submit[..|submit| - 1]);
    }
  }

  lemma AttachingReaches(e: Errors) returns (submit: seq<SubmitError>)
    requires WellShaped(e)
    ensures AttachAll(Default, submit) == e
  {
    var lines := if e.summary == [] then [] else e.summary[1..];
    submit := SlotErrors(e) + FormErrors(lines);
    AttachAllConcat(Default, SlotErrors(e), FormErrors(lines));
    AttachSlotErrors(e);
    AttachFormErrors(AttachAll(Default, SlotErrors(e)), lines);
    if e.summary != [] { assert e.summary == [e.summary[0]] + e.summary[1..]; }
  }

  /** The reachable states are exactly the well-shaped ones: a run of attaching alone reaches each of them. */
  lemma WellShapedIsReachable(e: Errors) returns (actions: seq<Action>)
    requires WellShaped(e)
    ensures Run(Default, actions) == e
    ensures forall a :: a in actions ==> a.Attaching?
  {
    var submit := AttachingReaches(e);
    actions := Attachings(submit);
    hide AttachAll, Attachings, WellShaped;
    AttachingIsRun(Default, submit);
  }
}
