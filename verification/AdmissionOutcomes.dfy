/** What admissions, preparations, revocations and decisions answer, over the fields of link, request and input. */
module AdmissionOutcomes {
  import opened Wrappers
  import opened Text
  import opened Admission
  import opened AdmissionRuns
  import I = InvitationLinks

  // --- the input ----------------------------------------------------------------

  /** The justification a submission comes to: trimmed, and none when absent or blank. */
  function Stated(raw: Admit): Option<string> {
    if raw.justification.None? || AllWhitespace(raw.justification.value) then None
    else Some(Trim(raw.justification.value))
  }

  predicate TooLong(raw: Admit) {
    raw.justification.Some? && ByteLength(Trim(raw.justification.value)) > 16384
  }

  lemma NormalizeExactly(raw: Admit)
    ensures Normalize(raw) == if TooLong(raw) then Err(Invalid) else Ok(Admit(raw.op, raw.requester, Stated(raw)))
  {
    hide Trim, ByteLength, AllWhitespace;
    if raw.justification.Some? {
      TrimIsEmptyIff(raw.justification.value);
      if Trim(raw.justification.value) == [] {
        EmptyIsShort();
      }
    }
  }

  lemma EmptyIsShort()
    ensures ByteLength([]) == 0
  {
  }

  /** A requester without identity, or a justification beyond 16 KiB, is refused and changes nothing. */
  lemma RefusedExactly(w: World, raw: Admit, env: Env)
    ensures raw.requester == 0 ==> AdmitOutcome(w, raw, env) == Outcome(w, Err(Missing))
    ensures raw.requester != 0 && TooLong(raw) ==> AdmitOutcome(w, raw, env) == Outcome(w, Err(Invalid))
  {
    hide AdmitInput, Normalize;
    NormalizeExactly(raw);
  }

  // --- the decision -------------------------------------------------------------

  /** Why the link admits nobody at `now`: the first of revoked, expired and used up. */
  function Ended(l: Link, now: int): Option<I.Inactive> {
    if l.revokedAt.Some? then Some(I.Revoked)
    else if l.expiresAt.Some? && l.expiresAt.value <= now then Some(I.Expired)
    else if l.maxUses.Some? && l.maxUses.value <= l.uses then Some(I.Exhausted)
    else None
  }

  /** The receipt of an admission: a pending request with seven days to be decided, or one approved at once. */
  function Admitted(l: Link, env: Env): Receipt {
    Receipt(env.decidedAt,
            if l.approvalRequired then Accepted(env.freshId, Pending, Some(env.decidedAt + 604_800))
            else Accepted(env.freshId, Approved, None))
  }

  /** Every answer a decision can have: evidence is asked for when the link has not ended at the first clock reading. */
  function Decision(l: Link, env: Env): Result<Receipt, Refusal> {
    var asked := Ended(l, env.checkedAt).None?;
    if asked && env.evidence.None? then Err(Uncertain)
    else if Ended(l, env.decidedAt).Some? then
      Ok(Receipt(env.decidedAt, Rejected(Inactive(Ended(l, env.decidedAt).value))))
    else if asked && (env.evidence.value.validUntil <= env.decidedAt || env.evidence.value.eligibility.Unknown?) then
      Err(Uncertain)
    else if asked && env.evidence.value.eligibility.NotAvailable? then
      Ok(Receipt(env.decidedAt, Rejected(Unavailable(env.evidence.value.eligibility.reason))))
    else if l.uses >= 0xFFFF_FFFF_FFFF_FFFF then Err(Invalid)
    else if !env.projected then Err(Unsent)
    else if env.initializeCall == Answered then Ok(Admitted(l, env))
    else Err(Uncertain)
  }

  lemma EndedIsInactive(l: Link, now: int)
    ensures InactiveAt(l, now) == Ended(l, now)
  {
    I.InactiveExactly(l.revokedAt.Some?, l.expiresAt, l.uses, l.maxUses, now);
  }

  lemma DecidesExactly(w: World, input: Admit, env: Env)
    requires env.freshId !in w.requests
    ensures DecideAdmission(w, input, env).answer == Decision(w.link, env)
  {
    hide InactiveAt, Ended, HandOff, RetainDecision;
    EndedIsInactive(w.link, env.checkedAt);
    EndedIsInactive(w.link, env.decidedAt);
    HandsOffExactly(w, input, env);
  }

  lemma HandsOffExactly(w: World, input: Admit, env: Env)
    requires env.freshId !in w.requests
    ensures var retained := RetainDecision(Spend(w), input, Initial(w.link, input, env));
      && input.op in retained.handoffs
      && HandOff(retained, input, retained.handoffs[input.op], env.initializeCall).answer ==
           if env.initializeCall == Answered then Ok(Admitted(w.link, env)) else Err(Uncertain)
  {
  }

  // --- a new operation ----------------------------------------------------------

  /** The operation has neither receipt nor hand-off, and was bound to no other input. */
  ghost predicate New(w: World, raw: Admit) {
    && raw.op !in w.ops && raw.op !in w.handoffs
    && (raw.op in w.attempts ==> w.attempts[raw.op] == Admit(raw.op, raw.requester, Stated(raw)))
  }

  /** The requester's earlier request cannot be asked: its owner does not answer, or does not hold it yet. */
  predicate Unasked(w: World, q: UserId, env: Env) {
    q in w.pointer && (env.eligibilityCall != Answered || w.pointer[q] !in w.requests)
  }

  /** The earlier request stands in the way: as first judged for this operation, or as it is, unless overdue. */
  predicate InTheWay(w: World, q: UserId, op: OperationId, env: Env)
    requires !Unasked(w, q, env)
  {
    q in w.pointer &&
    var id := w.pointer[q];
    if (id, op) in w.verdicts then w.verdicts[(id, op)].blocking
    else
      var r := w.requests[id];
      || r.state == Approved
      || (r.state == Pending && (r.initial.deadline.Some? ==> env.verdictAt < r.initial.deadline.value))
  }

  function JudgedAt(w: World, q: UserId, op: OperationId, env: Env): int
    requires q in w.pointer
  {
    if (w.pointer[q], op) in w.verdicts then w.verdicts[(w.pointer[q], op)].at else env.verdictAt
  }

  /** Every answer a new operation can have, over every run and every behaviour of the calls. */
  lemma AdmitExactly(w: World, actions: seq<Action>, raw: Admit, env: Env)
    requires Created(w) && FreshRun(w, actions) && env.freshId !in Run(w, actions).admissions
    requires raw.requester != 0 && !TooLong(raw) && New(Run(w, actions), raw)
    ensures var v, q := Run(w, actions), raw.requester;
      AdmitOutcome(v, raw, env).answer ==
        if Unasked(v, q, env) then Err(Uncertain)
        else if InTheWay(v, q, raw.op, env) then Ok(Receipt(JudgedAt(v, q, raw.op, env), Rejected(ExistingRequest)))
        else Decision(v.link, env)
  {
    hide Created, Good, Run, FreshRun, CheckExisting, Decision, Unasked, InTheWay, JudgedAt, Normalize, Stated, TooLong;
    var v := Run(w, actions);
    RunsAreGood(w, actions);
    var input := Admit(raw.op, raw.requester, Stated(raw));
    var bound := Bind(v, input);
    BindingFollows(v, input, bound);
    FollowsIsGood(v, bound);
    NormalizeExactly(raw);
    assert AdmitOutcome(v, raw, env) == CheckExisting(bound, input, env);
    assert input.op in bound.attempts && bound.attempts[input.op] == input && bound.link == v.link;
    ChecksExactly(bound, input, env);
    SameWay(v, bound, raw.requester, raw.op, env);
  }

  lemma SameWay(v: World, bound: World, q: UserId, op: OperationId, env: Env)
    requires bound == v.(attempts := bound.attempts, latest := bound.latest)
    ensures Unasked(bound, q, env) == Unasked(v, q, env)
    ensures !Unasked(v, q, env) ==> InTheWay(bound, q, op, env) == InTheWay(v, q, op, env)
    ensures !Unasked(v, q, env) && InTheWay(v, q, op, env) ==>
      q in v.pointer && JudgedAt(bound, q, op, env) == JudgedAt(v, q, op, env)
  {
  }

  lemma ChecksExactly(w: World, input: Admit, env: Env)
    requires Good(w) && input.op in w.attempts && w.attempts[input.op] == input && env.freshId !in w.admissions
    ensures CheckExisting(w, input, env).answer ==
      if Unasked(w, input.requester, env) then Err(Uncertain)
      else if InTheWay(w, input.requester, input.op, env)
           then Ok(Receipt(JudgedAt(w, input.requester, input.op, env), Rejected(ExistingRequest)))
      else Decision(w.link, env)
  {
    hide Good, DecideAdmission, CallEligibility, Decision, Unasked, InTheWay, JudgedAt, Follows;
    FreshIsUnheld(w, env.freshId);
    AskedExactly(w, input, env);
    if input.requester !in w.pointer {
      DecidesExactly(w, input, env);
    } else {
      CallEligibilityFollows(w, w.pointer[input.requester], input, env);
      var asked := CallEligibility(w, w.pointer[input.requester], input, env).0;
      FollowsIsGood(w, asked);
      FreshIsUnheld(asked, env.freshId);
      DecidesExactly(asked, input, env);
    }
  }

  /** What the earlier request's owner answers, over the request's fields. */
  lemma AskedExactly(w: World, input: Admit, env: Env)
    requires Good(w) && input.op in w.attempts && w.attempts[input.op] == input
    ensures input.requester !in w.pointer ==>
      !Unasked(w, input.requester, env) && !InTheWay(w, input.requester, input.op, env)
    ensures input.requester in w.pointer ==>
      var verdict := CallEligibility(w, w.pointer[input.requester], input, env).1;
      && (verdict.None? <==> Unasked(w, input.requester, env))
      && (verdict.Some? ==>
            && verdict.value.at == JudgedAt(w, input.requester, input.op, env)
            && (verdict.value.blocking <==> InTheWay(w, input.requester, input.op, env)))
  {
    hide EveryoneBacked, OwnersAgree, OnlyLatestOpen, VerdictsStand, Counted, Bound;
    if input.requester in w.pointer {
      var id := w.pointer[input.requester];
      if id in w.requests {
        PointerIsOwn(w, input.requester);
        if (id, input.op) in w.verdicts {
          VerdictIsForAttempt(w, id, input.op, input.requester);
        }
      }
    }
  }

  /** Asked again about one operation, an owner repeats its verdict for the input it judged and answers no other. */
  lemma RepeatsItsVerdict(w: World, id: RequestId, a: Admit, at: int, b: Admit, again: int)
    requires EligibilityVerdict(w, id, a, at).1.Some? && b.op == a.op
    ensures var (v, verdict) := EligibilityVerdict(w, id, a, at);
      EligibilityVerdict(v, id, b, again) == (v, if b == a then verdict else None)
  {
  }

  /** What an eligibility call without an answer leaves behind: at most an overdue request expired, and, if it was
    * carried out, the verdict it would have answered. */
  lemma UnansweredCallExactly(w: World, id: RequestId, attempt: Admit, env: Env)
    requires env.eligibilityCall != Answered
    ensures var due :=
        && id in w.requests && w.requests[id].initial.requester == attempt.requester
        && (id, attempt.op) !in w.verdicts && w.requests[id].state == Pending
        && w.requests[id].initial.deadline.Some? && w.requests[id].initial.deadline.value <= env.verdictAt;
      CallEligibility(w, id, attempt, env) ==
        match env.eligibilityCall
        case AnswerLost => (CallEligibility(w, id, attempt, env.(eligibilityCall := Answered)).0, None)
        case Interrupted =>
          (if due then w.(requests := w.requests[id := w.requests[id].(state := Expired)]) else w, None)
        case _ => (w, None)
  {
    if id in w.requests {
      assert w.requests[id := w.requests[id]] == w.requests;
    }
  }

  /** A call of `admit` that is carried out after the caller gave up still takes effect, once: the new request is held
    * as it was admitted, and one that is held already stays as it is. */
  lemma LateCallArrives(w: World, actions: seq<Action>, id: RequestId)
    requires Created(w) && FreshRun(w, actions) && id in Run(w, actions).admissions
    ensures var before, after := Run(w, actions), Run(w, actions + [InitializingLate(id)]);
      && id in after.requests && after.requests[id].initial == before.admissions[id]
      && after.requests[id].state ==
           (if id in before.requests then before.requests[id].state
            else if before.link.approvalRequired then Pending else Approved)
      && (forall r :: r != id ==> (r in after.requests <==> r in before.requests)
                                  && (r in before.requests ==> after.requests[r] == before.requests[r]))
  {
    hide EveryoneBacked, OnlyLatestOpen, VerdictsStand, Counted, Bound, Created, FreshRun, AdmitOutcome, PrepareOutcome,
      EligibilityVerdict, DecideRequest, Tick;
    RunsAreGood(w, actions);
    assert (actions + [InitializingLate(id)])[..|actions|] == actions;
  }

  /** A late eligibility call records its verdict: the request of that requester is judged for the operation. */
  lemma LateVerdictArrives(w: World, actions: seq<Action>, id: RequestId, op: OperationId, at: int)
    requires Created(w) && FreshRun(w, actions) && op in Run(w, actions).attempts && id in Run(w, actions).requests
    requires Run(w, actions).requests[id].initial.requester == Run(w, actions).attempts[op].requester
    requires (id, op) !in Run(w, actions).verdicts
    ensures var before, after := Run(w, actions), Run(w, actions + [JudgingLate(id, op, at)]);
      && (id, op) in after.verdicts && id in after.requests
      && after.verdicts[(id, op)] == Verdict(at, before.attempts[op], after.requests[id].state in {Pending, Approved})
  {
    hide EveryoneBacked, OnlyLatestOpen, VerdictsStand, Counted, OwnersAgree, Created, FreshRun, AdmitOutcome,
      PrepareOutcome, Initialize, DecideRequest, Tick, ExpireDue;
    RunsAreGood(w, actions);
    assert (actions + [JudgingLate(id, op, at)])[..|actions|] == actions;
  }

  predicate NextLink(l: Link, m: Link) {
    m == l || m.revision == l.revision + 1
  }

  lemma HandOffKeepsLink(w: World, input: Admit, handoff: Handoff, reach: Reach)
    ensures HandOff(w, input, handoff, reach).world.link == w.link
  {
  }

  lemma DecidingNumbers(w: World, input: Admit, env: Env)
    ensures NextLink(w.link, DecideAdmission(w, input, env).world.link)
  {
    hide HandOff, Judge, InactiveAt, Initial;
    if w.link.uses < U64_MAX {
      var retained := RetainDecision(Spend(w), input, Initial(w.link, input, env));
      HandOffKeepsLink(retained, input, retained.handoffs[input.op], env.initializeCall);
    }
  }

  lemma JudgingKeepsLink(w: World, id: RequestId, attempt: Admit, at: int)
    ensures EligibilityVerdict(w, id, attempt, at).0.link == w.link
  {
    hide ExpireDue, Blocks;
  }

  lemma AskingKeepsLink(w: World, id: RequestId, attempt: Admit, env: Env)
    ensures CallEligibility(w, id, attempt, env).0.link == w.link
  {
    hide EligibilityVerdict, ToBeJudged, ExpireDue;
    JudgingKeepsLink(w, id, attempt, env.verdictAt);
  }

  lemma CheckingNumbers(w: World, input: Admit, env: Env)
    ensures NextLink(w.link, CheckExisting(w, input, env).world.link)
  {
    hide DecideAdmission, CallEligibility;
    if input.requester in w.pointer {
      AskingKeepsLink(w, w.pointer[input.requester], input, env);
      DecidingNumbers(CallEligibility(w, w.pointer[input.requester], input, env).0, input, env);
    } else {
      DecidingNumbers(w, input, env);
    }
  }

  lemma AdmittingNumbers(w: World, raw: Admit, env: Env)
    ensures NextLink(w.link, AdmitOutcome(w, raw, env).world.link)
  {
    hide CheckExisting, HandOff, Normalize;
    if Normalize(raw).Ok? {
      var input := Normalize(raw).value;
      CheckingNumbers(Bind(w, input), input, env);
      if input.op in w.handoffs {
        HandOffKeepsLink(w, input, w.handoffs[input.op], env.initializeCall);
      }
    }
  }

  /** A step that changes the link gives it the next revision. */
  lemma LinkStepIsNumbered(w: World, a: Action)
    ensures NextLink(w.link, Step(w, a).link)
  {
    hide AdmitOutcome, Normalize, ExpireDue, DecideRequest;
    if a.Admitting? {
      AdmittingNumbers(w, a.raw, a.env);
    }
  }

  /** Along every run the revision tells the link: it counts up, by no more than one a step, and equal revisions are
    * equal links. */
  lemma {:induction false} RevisionTellsTheLink(w: World, actions: seq<Action>, n: nat)
    requires n <= |actions|
    ensures var before, after := Run(w, actions[..n]).link, Run(w, actions).link;
      && before.revision <= after.revision <= before.revision + |actions| - n
      && (after.revision == before.revision ==> after == before)
    decreases |actions|
  {
    hide Step;
    if n == |actions| {
      assert actions[..n] == actions;
    } else {
      var last := |actions| - 1;
      assert actions[..last][..n] == actions[..n];
      RevisionTellsTheLink(w, actions[..last], n);
      LinkStepIsNumbered(Run(w, actions[..last]), actions[last]);
    }
  }

  /**
   * With every call answered and sent, evidence that is known and still valid, and room to count, a new operation
   * whose requester's earlier request, if any, is held, is accepted if and only if the link is neither revoked, nor
   * expired, nor used up, the evidence says available, unless the clock stepped back over the expiration so that it
   * was never asked for, and no earlier request stands in the way.
   */
  lemma EligibleExactly(w: World, actions: seq<Action>, raw: Admit, env: Env)
    requires Created(w) && FreshRun(w, actions) && env.freshId !in Run(w, actions).admissions
    requires raw.requester != 0 && !TooLong(raw) && New(Run(w, actions), raw)
    requires !Unasked(Run(w, actions), raw.requester, env)
    requires env.initializeCall == Answered && env.projected && Run(w, actions).link.uses < 0xFFFF_FFFF_FFFF_FFFF
    requires env.evidence.Some? && !env.evidence.value.eligibility.Unknown?
    requires env.decidedAt < env.evidence.value.validUntil
    ensures var v := Run(w, actions); var l := v.link;
      AdmitOutcome(v, raw, env).answer == Ok(Admitted(l, env)) <==>
        && l.revokedAt.None?
        && (l.expiresAt.Some? ==> env.decidedAt < l.expiresAt.value)
        && (l.maxUses.Some? ==> l.uses < l.maxUses.value)
        && (env.evidence.value.eligibility.Available? || ClockSteppedBackOverExpiry(l, env))
        && !InTheWay(v, raw.requester, raw.op, env)
  {
    hide Created, Run, FreshRun, New, Unasked, InTheWay, JudgedAt, AdmitOutcome, TooLong;
    AdmitExactly(w, actions, raw, env);
  }

  /** An operation bound to one input conflicts with any other, whatever has become of it, and nothing changes. */
  lemma OtherInputConflicts(w: World, actions: seq<Action>, raw: Admit, env: Env)
    requires Created(w) && FreshRun(w, actions) && raw.requester != 0 && !TooLong(raw)
    requires raw.op in Run(w, actions).attempts
    requires Run(w, actions).attempts[raw.op] != Admit(raw.op, raw.requester, Stated(raw))
    ensures AdmitOutcome(Run(w, actions), raw, env) == Outcome(Run(w, actions), Err(Conflict))
    ensures PrepareOutcome(Run(w, actions), raw) == Run(w, actions)
  {
    hide Created, Run, FreshRun, CheckExisting, HandOff, Normalize, EveryoneBacked, OwnersAgree, OnlyLatestOpen,
      VerdictsStand, Counted, Stated, TooLong;
    RunsAreGood(w, actions);
    NormalizeExactly(raw);
  }

  /** Preparing binds a new operation to its input and makes it the requester's latest, and changes nothing else. */
  lemma PreparedExactly(w: World, raw: Admit)
    requires raw.requester != 0 && !TooLong(raw) && raw.op !in w.ops && raw.op !in w.attempts
    ensures PrepareOutcome(w, raw) == w.(
      attempts := w.attempts[raw.op := Admit(raw.op, raw.requester, Stated(raw))],
      latest := w.latest[raw.requester := raw.op])
  {
    hide Normalize, Stated, TooLong;
    NormalizeExactly(raw);
  }

  /** So does admitting it, whatever the answer. */
  lemma AdmittingBinds(w: World, actions: seq<Action>, raw: Admit, env: Env)
    requires Created(w) && FreshRun(w, actions) && env.freshId !in Run(w, actions).admissions
    requires raw.requester != 0 && !TooLong(raw) && New(Run(w, actions), raw)
    ensures var after := AdmitOutcome(Run(w, actions), raw, env).world;
      && raw.op in after.attempts && after.attempts[raw.op] == Admit(raw.op, raw.requester, Stated(raw))
      && after.latest == Run(w, actions).latest[raw.requester := raw.op]
  {
    hide Created, Run, FreshRun, CheckExisting, Normalize, Stated, TooLong, Good;
    NormalizeExactly(raw);
    CheckKeepsBinding(Bind(Run(w, actions), Admit(raw.op, raw.requester, Stated(raw))),
                      Admit(raw.op, raw.requester, Stated(raw)), env);
  }

  lemma CheckKeepsBinding(w: World, input: Admit, env: Env)
    ensures CheckExisting(w, input, env).world.attempts == w.attempts
    ensures CheckExisting(w, input, env).world.latest == w.latest
  {
    hide DecideAdmission, CallEligibility;
    DecideKeepsBinding(w, input, env);
    if input.requester in w.pointer {
      CallKeepsBinding(w, w.pointer[input.requester], input, env);
      DecideKeepsBinding(CallEligibility(w, w.pointer[input.requester], input, env).0, input, env);
    }
  }

  lemma CallKeepsBinding(w: World, id: RequestId, attempt: Admit, env: Env)
    ensures CallEligibility(w, id, attempt, env).0.attempts == w.attempts
    ensures CallEligibility(w, id, attempt, env).0.latest == w.latest
  {
    hide EligibilityVerdict;
    VerdictEffect(w, id, attempt, env.verdictAt);
  }

  lemma DecideKeepsBinding(w: World, input: Admit, env: Env)
    ensures DecideAdmission(w, input, env).world.attempts == w.attempts
    ensures DecideAdmission(w, input, env).world.latest == w.latest
  {
    hide Judge, Initial, HandOff, InactiveAt;
    var retained := RetainDecision(Spend(w), input, Initial(w.link, input, env));
    HandOffKeepsBinding(retained, input, retained.handoffs[input.op], env.initializeCall);
  }

  lemma HandOffKeepsBinding(w: World, input: Admit, h: Handoff, reach: Reach)
    ensures HandOff(w, input, h, reach).world.attempts == w.attempts
    ensures HandOff(w, input, h, reach).world.latest == w.latest
  {
    hide Initialize, Record;
    InitializeKeepsBinding(w, h.initialization);
    RecordKeepsBinding(Initialize(w, h.initialization).0, input, h.record.receipt);
  }

  lemma InitializeKeepsBinding(w: World, init: Initialization)
    ensures Initialize(w, init).0.attempts == w.attempts && Initialize(w, init).0.latest == w.latest
  {
  }

  lemma RecordKeepsBinding(w: World, input: Admit, receipt: Receipt)
    ensures Record(w, input, receipt).attempts == w.attempts && Record(w, input, receipt).latest == w.latest
  {
  }

  // --- over the rest of a run ---------------------------------------------------

  /** An accepted operation's request holds its requester and the trimmed text submitted, to the end of every run. */
  lemma AdmittedAsSubmitted(w: World, actions: seq<Action>, n: nat)
    requires Created(w) && FreshRun(w, actions) && n < |actions| && actions[n].Admitting?
    requires var answer := AdmitOutcome(Run(w, actions[..n]), actions[n].raw, actions[n].env).answer;
      answer.Ok? && answer.value.result.Accepted?
    ensures var raw := actions[n].raw;
      var receipt := AdmitOutcome(Run(w, actions[..n]), raw, actions[n].env).answer.value;
      var id, v := receipt.result.requestId, Run(w, actions);
      && id in v.requests
      && v.requests[id].initial.requester == raw.requester
      && v.requests[id].initial.justification == Stated(raw)
      && v.requests[id].initial.admittedAt == receipt.decidedAt
  {
    hide Created, Good, FreshRun, Normalize, Stated, TooLong, Step, AdmitOutcome;
    var raw, env := actions[n].raw, actions[n].env;
    FreshPrefix(w, actions, n + 1);
    assert actions[..n + 1][..n] == actions[..n] && actions[..n + 1][n] == actions[n];
    FreshPrefix(w, actions, n);
    RunsAreGood(w, actions[..n]);
    CreatedIsGood(w);
    FreshAtStep(w, actions, n);
    AnswerIsRecorded(Run(w, actions[..n]), raw, env);
    NormalizeExactly(raw);
    AdmittingStep(Run(w, actions[..n]), raw, env);
    assert Run(w, actions[..n + 1]) == Step(Run(w, actions[..n]), actions[n]);
    LaterFollows(w, actions, n + 1);
    FollowsIsGood(Run(w, actions[..n + 1]), Run(w, actions));
    AcceptedIsInitialized(w, actions, raw.op);
  }

  lemma AdmittingStep(w: World, raw: Admit, env: Env)
    ensures Step(w, Admitting(raw, env)) == AdmitOutcome(w, raw, env).world
  {
  }

  lemma FreshAtStep(w: World, actions: seq<Action>, n: nat)
    requires FreshRun(w, actions) && n < |actions|
    ensures FreshFor(Run(w, actions[..n]), actions[n])
  {
    FreshPrefix(w, actions, n + 1);
    assert actions[..n + 1][..n] == actions[..n] && actions[..n + 1][n] == actions[n];
  }

  /** A decision on a pending request takes effect before its deadline, expires it from then on, and either stands to
    * the end of every run. */
  lemma DecisionsStand(w: World, actions: seq<Action>, n: nat)
    requires Created(w) && FreshRun(w, actions) && n < |actions| && actions[n].Deciding?
    requires var r, before := actions[n].decided, Run(w, actions[..n]);
      r in before.requests && before.requests[r].state == Pending && before.requests[r].initial.deadline.Some?
    ensures var a := actions[n];
      var due := Run(w, actions[..n]).requests[a.decided].initial.deadline.value;
      && a.decided in Run(w, actions).requests
      && Run(w, actions).requests[a.decided].state ==
           if a.decidedAt < due then (if a.approve then Approved else Declined) else Expired
  {
    hide Created, Good, FreshRun, Step;
    StepThenRest(w, actions, n);
    DecidingStep(Run(w, actions[..n]), actions[n]);
  }

  /** Looking at a pending request from its deadline on expires it for good, and before that leaves it. */
  lemma ExpiryStands(w: World, actions: seq<Action>, n: nat)
    requires Created(w) && FreshRun(w, actions) && n < |actions| && actions[n].Ticking?
    requires var r, before := actions[n].ticked, Run(w, actions[..n]);
      r in before.requests && before.requests[r].state == Pending && before.requests[r].initial.deadline.Some?
    ensures var a := actions[n];
      var due := Run(w, actions[..n]).requests[a.ticked].initial.deadline.value;
      if due <= a.tickedAt
      then a.ticked in Run(w, actions).requests && Run(w, actions).requests[a.ticked].state == Expired
      else Run(w, actions[..n + 1]) == Run(w, actions[..n])
  {
    hide Created, Good, FreshRun, Step;
    StepThenRest(w, actions, n);
    TickingStep(Run(w, actions[..n]), actions[n]);
  }

  lemma StepThenRest(w: World, actions: seq<Action>, n: nat)
    requires Created(w) && FreshRun(w, actions) && n < |actions|
    ensures Run(w, actions[..n + 1]) == Step(Run(w, actions[..n]), actions[n])
    ensures Extends(Run(w, actions[..n + 1]), Run(w, actions))
  {
    hide Created, Good, Step, Extends;
    assert actions[..n + 1][..n] == actions[..n] && actions[..n + 1][n] == actions[n];
    CreatedIsGood(w);
    LaterFollows(w, actions, n + 1);
    FollowsIsGood(Run(w, actions[..n + 1]), Run(w, actions));
  }

  lemma DecidingStep(w: World, a: Action)
    requires a.Deciding? && a.decided in w.requests
    requires w.requests[a.decided].state == Pending && w.requests[a.decided].initial.deadline.Some?
    ensures a.decided in Step(w, a).requests
    ensures Step(w, a).requests[a.decided].state ==
      if a.decidedAt < w.requests[a.decided].initial.deadline.value then (if a.approve then Approved else Declined)
      else Expired
  {
  }

  lemma TickingStep(w: World, a: Action)
    requires a.Ticking? && a.ticked in w.requests
    requires w.requests[a.ticked].state == Pending && w.requests[a.ticked].initial.deadline.Some?
    ensures if w.requests[a.ticked].initial.deadline.value <= a.tickedAt
            then a.ticked in Step(w, a).requests && Step(w, a).requests[a.ticked].state == Expired
            else Step(w, a) == w
  {
    var r := w.requests[a.ticked];
    if a.tickedAt < r.initial.deadline.value {
      assert w.requests[a.ticked := r] == w.requests;
    }
  }

  /** A revocation ends the link from then on: it is revoked at its first instant, and no further use is consumed. */
  lemma RevocationStands(w: World, actions: seq<Action>, n: nat)
    requires Created(w) && FreshRun(w, actions) && n < |actions| && actions[n].Revoking?
    ensures var before := Run(w, actions[..n]).link.revokedAt;
      Run(w, actions).link.revokedAt == if before.Some? then before else Some(actions[n].at)
    ensures Run(w, actions).link.uses == Run(w, actions[..n]).link.uses
    ensures Run(w, actions).admissions == Run(w, actions[..n]).admissions
  {
    hide Created, Good, FreshRun, Step;
    StepThenRest(w, actions, n);
    RevokingStep(Run(w, actions[..n]), actions[n]);
    StoppedLinksAdmitNoMore(w, actions, n + 1);
  }

  lemma RevokingStep(w: World, a: Action)
    requires a.Revoking?
    ensures var l := Step(w, a).link;
      && l.revokedAt == (if w.link.revokedAt.Some? then w.link.revokedAt else Some(a.at))
      && l.uses == w.link.uses && Step(w, a).admissions == w.admissions
  {
  }
}
