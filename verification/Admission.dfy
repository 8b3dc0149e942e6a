/** Admission through one invitation link: use consumption, receipts and the handoff to request owners. */
module Admission {
  import opened Wrappers
  import Text
  import I = InvitationLinks

  const MAX_JUSTIFICATION_BYTES: nat := 16_384
  const PENDING_LIFETIME: int := 7 * 24 * 60 * 60
  const U64_MAX: nat := 0xFFFF_FFFF_FFFF_FFFF

  type OperationId = nat
  type RequestId = nat
  type UserId = nat

  // --- values -------------------------------------------------------------------

  datatype Admit = Admit(op: OperationId, requester: UserId, justification: Option<string>)

  datatype Rejection = Inactive(why: I.Inactive) | ExistingRequest | Unavailable(reason: nat)

  datatype RequestState = Pending | Approved | Declined | Expired

  datatype AdmissionResult =
    | Accepted(requestId: RequestId, state: RequestState, deadline: Option<int>)
    | Rejected(why: Rejection)

  datatype Receipt = Receipt(decidedAt: int, result: AdmissionResult)

  datatype OperationRecord = OperationRecord(input: Admit, receipt: Receipt)

  /** The context a new request is initialised with. */
  datatype Initialization = Initialization(
    requestId: RequestId, requester: UserId, justification: Option<string>,
    state: RequestState, admittedAt: int, deadline: Option<int>)

  /** An accepted decision whose request is not yet known to be initialised. */
  datatype Handoff = Handoff(record: OperationRecord, initialization: Initialization)

  /** A request as its owner holds it: how it was initialised, and its state now. */
  datatype Request = Request(initial: Initialization, state: RequestState)

  datatype Verdict = Verdict(at: int, attempt: Admit, blocking: bool)

  datatype Link = Link(
    maxUses: Option<nat>, expiresAt: Option<int>, approvalRequired: bool,
    uses: nat, revision: nat, revokedAt: Option<int>)

  /** The durable state of the link object, and of the request owners it has handed requests to. */
  datatype World = World(
    link: Link,
    ops: map<OperationId, OperationRecord>,
    handoffs: map<OperationId, Handoff>,
    attempts: map<OperationId, Admit>,
    latest: map<UserId, OperationId>,
    pointer: map<UserId, RequestId>,
    admissions: map<RequestId, Initialization>,
    requests: map<RequestId, Request>,
    verdicts: map<(RequestId, OperationId), Verdict>)

  datatype Refusal = Missing | Invalid | Conflict | Uncertain | Unsent

  datatype Outcome = Outcome(world: World, answer: Result<Receipt, Refusal>)

  /**
   * A call to another object is not delivered, or fails there after the state was written, at a send of its
   * own, or is carried out and its answer lost, or is answered.
   */
  datatype Reach = Undelivered | Interrupted | AnswerLost | Answered

  datatype Eligibility = Available | NotAvailable(reason: nat) | Unknown

  datatype Evidence = Evidence(eligibility: Eligibility, validUntil: int)

  /** What the surroundings of one `admit` call decide. */
  datatype Env = Env(
    eligibilityCall: Reach, verdictAt: int,   // the request owner's eligibility verdict
    checkedAt: int,                           // "needs availability" is decided at this instant
    evidence: Option<Evidence>,               // none: the availability call failed
    decidedAt: int,                           // the admission is decided at this instant
    freshId: RequestId,                       // the request identity allocated on acceptance
    projected: bool,                          // the send of the new link to its projection succeeds
    initializeCall: Reach)

  // --- the link -----------------------------------------------------------------

  function InactiveAt(l: Link, now: int): Option<I.Inactive> {
    I.CheckInactive(l.revokedAt.Some?, l.expiresAt, l.uses, l.maxUses, now)
  }

  /** Trim the justification; blank means none. */
  function Normalize(raw: Admit): Result<Admit, Refusal> {
    match raw.justification
    case None => Ok(raw)
    case Some(text) =>
      var trimmed := Text.Trim(text);
      if trimmed == [] then Ok(raw.(justification := None))
      else if Text.ByteLength(trimmed) > MAX_JUSTIFICATION_BYTES then Err(Invalid)
      else Ok(raw.(justification := Some(trimmed)))
  }

  // --- request owners -----------------------------------------------------------

  predicate Blocks(s: RequestState) {
    s == Pending || s == Approved
  }

  function ExpireDue(r: Request, now: int): Request {
    if r.state == Pending && r.initial.deadline.Some? && now >= r.initial.deadline.value
    then r.(state := Expired) else r
  }

  /** `decide`: only a pending request that is not overdue takes an admin's decision. */
  function DecideRequest(r: Request, approve: bool, now: int): Request {
    var e := ExpireDue(r, now);
    if r.state == Pending && e == r && r.initial.deadline.Some?
    then r.(state := if approve then Approved else Declined) else e
  }

  /** `initialize`: the first context binds the request; the same context again is accepted. */
  function Initialize(w: World, init: Initialization): (World, bool) {
    if init.requestId in w.requests then (w, w.requests[init.requestId].initial == init)
    else (w.(requests := w.requests[init.requestId := Request(init, init.state)]), true)
  }

  function CallInitialize(w: World, init: Initialization, reach: Reach): (World, bool) {
    match reach
    case Undelivered => (w, false)
    case Interrupted => (Initialize(w, init).0, false)
    case AnswerLost => (Initialize(w, init).0, false)
    case Answered => Initialize(w, init)
  }

  /** `eligibility`: the verdict on one attempt is recorded once and then repeated. */
  function EligibilityVerdict(w: World, id: RequestId, attempt: Admit, at: int): (World, Option<Verdict>) {
    if id !in w.requests || w.requests[id].initial.requester != attempt.requester then (w, None)
    else if (id, attempt.op) in w.verdicts then
      var first := w.verdicts[(id, attempt.op)];
      (w, if first.attempt == attempt then Some(first) else None)
    else
      var request := ExpireDue(w.requests[id], at);
      var verdict := Verdict(at, attempt, Blocks(request.state));
      (w.(requests := w.requests[id := request], verdicts := w.verdicts[(id, attempt.op) := verdict]), Some(verdict))
  }

  /** Inspecting a request expires it when it is overdue. */
  function Tick(w: World, id: RequestId, at: int): World {
    if id in w.requests then w.(requests := w.requests[id := ExpireDue(w.requests[id], at)]) else w
  }

  /** The request is held for this requester and has no verdict on the attempt yet. */
  predicate ToBeJudged(w: World, id: RequestId, attempt: Admit) {
    id in w.requests && w.requests[id].initial.requester == attempt.requester && (id, attempt.op) !in w.verdicts
  }

  function CallEligibility(w: World, id: RequestId, attempt: Admit, env: Env): (World, Option<Verdict>) {
    match env.eligibilityCall
    case Undelivered => (w, None)
    case Interrupted => (if ToBeJudged(w, id, attempt) then Tick(w, id, env.verdictAt) else w, None)
    case AnswerLost => (EligibilityVerdict(w, id, attempt, env.verdictAt).0, None)
    case Answered => EligibilityVerdict(w, id, attempt, env.verdictAt)
  }

  // --- admit --------------------------------------------------------------------

  datatype Judgement = Undecided | Refuse(why: Rejection) | Accept

  /** The decision at `now`, with the availability evidence that was asked for, if any. */
  function Judge(l: Link, evidence: Option<Evidence>, now: int): Judgement {
    var inactive := InactiveAt(l, now);
    if inactive.Some? then Refuse(Inactive(inactive.value))
    else if evidence.None? then Accept
    else if now >= evidence.value.validUntil then Undecided
    else
      match evidence.value.eligibility
      case Available => Accept
      case NotAvailable(reason) => Refuse(Unavailable(reason))
      case Unknown => Undecided
  }

  function Record(w: World, input: Admit, receipt: Receipt): World {
    w.(ops := w.ops[input.op := OperationRecord(input, receipt)], handoffs := w.handoffs - {input.op})
  }

  function Initial(l: Link, input: Admit, env: Env): Initialization {
    Initialization(env.freshId, input.requester, input.justification,
                   if l.approvalRequired then Pending else Approved,
                   env.decidedAt,
                   if l.approvalRequired then Some(env.decidedAt + PENDING_LIFETIME) else None)
  }

  function AcceptedReceipt(init: Initialization): Receipt {
    Receipt(init.admittedAt, Accepted(init.requestId, init.state, init.deadline))
  }

  /** One use is consumed: the link is written first, and sent to its projection. */
  function Spend(w: World): World {
    w.(link := w.link.(uses := w.link.uses + 1, revision := w.link.revision + 1))
  }

  /** Once that is sent, the decision is retained, before the request owner is called. */
  function RetainDecision(w: World, input: Admit, init: Initialization): World {
    w.(admissions := w.admissions[init.requestId := init],
       pointer := w.pointer[input.requester := init.requestId],
       handoffs := w.handoffs[input.op := Handoff(OperationRecord(input, AcceptedReceipt(init)), init)])
  }

  /** Calling the owner; only its answer turns the retained decision into a receipt. */
  function HandOff(w: World, input: Admit, handoff: Handoff, reach: Reach): Outcome {
    var (called, ok) := CallInitialize(w, handoff.initialization, reach);
    if ok then Outcome(Record(called, input, handoff.record.receipt), Ok(handoff.record.receipt))
    else Outcome(called, Err(Uncertain))
  }

  function DecideAdmission(w: World, input: Admit, env: Env): Outcome {
    var check := InactiveAt(w.link, env.checkedAt).None?;
    if check && env.evidence.None? then Outcome(w, Err(Uncertain))
    else
      match Judge(w.link, if check then env.evidence else None, env.decidedAt)
      case Undecided => Outcome(w, Err(Uncertain))
      case Refuse(why) =>
        var receipt := Receipt(env.decidedAt, Rejected(why));
        Outcome(Record(w, input, receipt), Ok(receipt))
      case Accept =>
        if w.link.uses >= U64_MAX then Outcome(w, Err(Invalid))
        else
          var init := Initial(w.link, input, env);
          var spent := Spend(w);
          if !env.projected then Outcome(spent, Err(Unsent))
          else
            var retained := RetainDecision(spent, input, init);
            HandOff(retained, input, retained.handoffs[input.op], env.initializeCall)
  }

  function CheckExisting(w: World, input: Admit, env: Env): Outcome {
    if input.requester !in w.pointer then DecideAdmission(w, input, env)
    else
      var (asked, verdict) := CallEligibility(w, w.pointer[input.requester], input, env);
      match verdict
      case None => Outcome(asked, Err(Uncertain))
      case Some(v) =>
        if v.blocking then
          var receipt := Receipt(v.at, Rejected(ExistingRequest));
          Outcome(Record(asked, input, receipt), Ok(receipt))
        else DecideAdmission(asked, input, env)
  }

  /** The attempt is bound to its first input. */
  function Bind(w: World, input: Admit): World {
    w.(attempts := w.attempts[input.op := input], latest := w.latest[input.requester := input.op])
  }

  function AdmitInput(w: World, input: Admit, env: Env): Outcome {
    if input.op in w.ops then
      Outcome(w, if w.ops[input.op].input == input then Ok(w.ops[input.op].receipt) else Err(Conflict))
    else if input.op in w.handoffs then
      if w.handoffs[input.op].record.input != input then Outcome(w, Err(Conflict))
      else HandOff(w, input, w.handoffs[input.op], env.initializeCall)
    else if input.op in w.attempts && w.attempts[input.op] != input then Outcome(w, Err(Conflict))
    else
      CheckExisting(Bind(w, input), input, env)
  }

  function AdmitOutcome(w: World, raw: Admit, env: Env): Outcome {
    if raw.requester == 0 then Outcome(w, Err(Missing))
    else
      match Normalize(raw)
      case Err(e) => Outcome(w, Err(e))
      case Ok(input) => AdmitInput(w, input, env)
  }

  /** `prepare_attempt`: binds the input without claiming acceptance. */
  function PrepareOutcome(w: World, raw: Admit): World {
    match Normalize(raw)
    case Err(_) => w
    case Ok(input) =>
      if raw.requester == 0 || input.op in w.ops || input.op in w.attempts then w
      else Bind(w, input)
  }

  // --- the objects, updated a key at a time -------------------------------------

  class LinkAuthority {
    var link: Link
    var ops: map<OperationId, OperationRecord>
    var handoffs: map<OperationId, Handoff>
    var attempts: map<OperationId, Admit>
    var latest: map<UserId, OperationId>
    var pointer: map<UserId, RequestId>
    var admissions: map<RequestId, Initialization>
    var requests: map<RequestId, Request>
    var verdicts: map<(RequestId, OperationId), Verdict>

    function State(): World
      reads this
    {
      World(link, ops, handoffs, attempts, latest, pointer, admissions, requests, verdicts)
    }

    method CallOwnerInitialize(init: Initialization, reach: Reach) returns (ok: bool)
      modifies this`requests
      ensures (State(), ok) == CallInitialize(old(State()), init, reach)
    {
      ok := false;
      if reach != Undelivered {
        if init.requestId in requests {
          ok := requests[init.requestId].initial == init;
        } else {
          requests := requests[init.requestId := Request(init, init.state)];
          ok := true;
        }
        ok := ok && reach == Answered;
      }
    }

    method CallOwnerEligibility(id: RequestId, attempt: Admit, env: Env) returns (verdict: Option<Verdict>)
      modifies this`requests, this`verdicts
      ensures (State(), verdict) == CallEligibility(old(State()), id, attempt, env)
    {
      verdict := None;
      if env.eligibilityCall == Undelivered {
        return;
      }
      if id !in requests || requests[id].initial.requester != attempt.requester {
        return;
      }
      var key := (id, attempt.op);
      if key in verdicts {
        if verdicts[key].attempt == attempt {
          verdict := Some(verdicts[key]);
        }
      } else {
        var request := ExpireDue(requests[id], env.verdictAt);
        requests := requests[id := request];
        if env.eligibilityCall == Interrupted {
          return;
        }
        verdict := Some(Verdict(env.verdictAt, attempt, Blocks(request.state)));
        verdicts := verdicts[key := verdict.value];
      }
      if env.eligibilityCall != Answered {
        verdict := None;
      }
    }

    method SetReceipt(input: Admit, receipt: Receipt)
      modifies this`ops, this`handoffs
      ensures State() == Record(old(State()), input, receipt)
    {
      ops := ops[input.op := OperationRecord(input, receipt)];
      handoffs := handoffs - {input.op};
    }

    method FinishHandOff(input: Admit, handoff: Handoff, reach: Reach) returns (r: Result<Receipt, Refusal>)
      modifies this
      ensures Outcome(State(), r) == HandOff(old(State()), input, handoff, reach)
    {
      var ok := CallOwnerInitialize(handoff.initialization, reach);
      if !ok {
        return Err(Uncertain);
      }
      SetReceipt(input, handoff.record.receipt);
      r := Ok(handoff.record.receipt);
    }

    method SpendUse()
      modifies this`link
      ensures State() == Spend(old(State()))
    {
      link := link.(uses := link.uses + 1, revision := link.revision + 1);
    }

    method SetHandOff(input: Admit, init: Initialization) returns (handoff: Handoff)
      modifies this`admissions, this`pointer, this`handoffs
      ensures State() == RetainDecision(old(State()), input, init)
      ensures handoff == Handoff(OperationRecord(input, AcceptedReceipt(init)), init)
    {
      admissions := admissions[init.requestId := init];
      pointer := pointer[input.requester := init.requestId];
      handoff := Handoff(OperationRecord(input, AcceptedReceipt(init)), init);
      handoffs := handoffs[input.op := handoff];
    }

    method Decide(input: Admit, env: Env) returns (r: Result<Receipt, Refusal>)
      modifies this
      ensures Outcome(State(), r) == DecideAdmission(old(State()), input, env)
    {
      hide Judge, Initial, HandOff, Record, InactiveAt;
      var check := InactiveAt(link, env.checkedAt).None?;
      if check && env.evidence.None? {
        return Err(Uncertain);
      }
      var judgement := Judge(link, if check then env.evidence else None, env.decidedAt);
      match judgement {
        case Undecided => r := Err(Uncertain);
        case Refuse(why) =>
          var receipt := Receipt(env.decidedAt, Rejected(why));
          SetReceipt(input, receipt);
          r := Ok(receipt);
        case Accept =>
          if link.uses >= U64_MAX {
            return Err(Invalid);
          }
          var init := Initial(link, input, env);
          SpendUse();
          if !env.projected {
            return Err(Unsent);
          }
          var handoff := SetHandOff(input, init);
          r := FinishHandOff(input, handoff, env.initializeCall);
      }
    }

    /** `admit` */
    method AdmitRequest(raw: Admit, env: Env) returns (r: Result<Receipt, Refusal>)
      modifies this
      ensures Outcome(State(), r) == AdmitOutcome(old(State()), raw, env)
    {
      if raw.requester == 0 {
        return Err(Missing);
      }
      var normal := Normalize(raw);
      if normal.Err? {
        return Err(normal.error);
      }
      var input := normal.value;
      if input.op in ops {
        return if ops[input.op].input == input then Ok(ops[input.op].receipt) else Err(Conflict);
      }
      if input.op in handoffs {
        if handoffs[input.op].record.input != input {
          return Err(Conflict);
        }
        r := FinishHandOff(input, handoffs[input.op], env.initializeCall);
        return;
      }
      if input.op in attempts && attempts[input.op] != input {
        return Err(Conflict);
      }
      attempts := attempts[input.op := input];
      latest := latest[input.requester := input.op];
      if input.requester in pointer {
        var verdict := CallOwnerEligibility(pointer[input.requester], input, env);
        if verdict.None? {
          return Err(Uncertain);
        }
        if verdict.value.blocking {
          var receipt := Receipt(verdict.value.at, Rejected(ExistingRequest));
          SetReceipt(input, receipt);
          return Ok(receipt);
        }
      }
      r := Decide(input, env);
    }
  }

  // --- every run ----------------------------------------------------------------

  datatype Action =
    | Admitting(raw: Admit, env: Env)
    | Preparing(prepared: Admit)
    | Revoking(at: int)
    | EditingMetadata
    | Deciding(decided: RequestId, approve: bool, decidedAt: int)
    | Ticking(ticked: RequestId, tickedAt: int)
    | InitializingLate(initialized: RequestId)                 // a call of `admit` delivered after it gave up
    | JudgingLate(judged: RequestId, op: OperationId, judgedAt: int)

  function Step(w: World, a: Action): World {
    match a
    case Admitting(raw, env) => AdmitOutcome(w, raw, env).world
    case Preparing(raw) => PrepareOutcome(w, raw)
    case Revoking(at) =>
      if w.link.revokedAt.Some? then w
      else w.(link := w.link.(revokedAt := Some(at), revision := w.link.revision + 1))
    case EditingMetadata => w.(link := w.link.(revision := w.link.revision + 1))
    case Deciding(id, approve, at) =>
      if id in w.requests then w.(requests := w.requests[id := DecideRequest(w.requests[id], approve, at)]) else w
    case Ticking(id, at) => Tick(w, id, at)
    case InitializingLate(id) =>
      if id in w.admissions then Initialize(w, w.admissions[id]).0 else w
    case JudgingLate(id, op, at) =>
      if op in w.attempts then EligibilityVerdict(w, id, w.attempts[op], at).0 else w
  }

  function Run(w: World, actions: seq<Action>): World {
    if actions == [] then w else Step(Run(w, actions[..|actions| - 1]), actions[|actions| - 1])
  }

  /** Request identities are allocated fresh: none has been used before. */
  ghost predicate FreshFor(w: World, a: Action) {
    a.Admitting? ==> a.env.freshId !in w.admissions
  }

  ghost predicate FreshRun(w: World, actions: seq<Action>)
    decreases |actions|
  {
    actions != [] ==>
      && FreshRun(w, actions[..|actions| - 1])
      && FreshFor(Run(w, actions[..|actions| - 1]), actions[|actions| - 1])
  }

  /** A link just created: nothing admitted yet. */
  ghost predicate Created(w: World) {
    && w.link.uses == 0
    && w.ops == map[] && w.handoffs == map[] && w.attempts == map[] && w.latest == map[]
    && w.pointer == map[] && w.admissions == map[] && w.requests == map[] && w.verdicts == map[]
  }
}
